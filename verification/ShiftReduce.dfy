/**
 The swap-based transition system: configurations, the four moves, and what every run of
 enabled moves keeps. A stack is listed from its top, as the source does; -1 is the root.
 */
module ShiftReduce {
  import opened Options
  import opened Sequences
  import opened Arborescences
  import opened Inversions

  const ROOT: Vertex := -1

  datatype Action = LeftArc | RightArc | Swap | Shift

  datatype State = State(stack: seq<Vertex>, buffer: seq<Vertex>, arcs: seq<Arc>)

  function Initial(vertices: seq<Vertex>): State {
    State([ROOT], vertices, [])
  }

  predicate Terminated(s: State) {
    s.stack == [ROOT] && s.buffer == []
  }

  /** The state after a move, or `None` where the move signals an error. */
  function Step(s: State, action: Action): Option<State> {
    match action
    case LeftArc =>
      if |s.stack| >= 2 && s.stack[1] != ROOT
      then Some(s.(arcs := [Arc(s.stack[0], s.stack[1])] + s.arcs, stack := [s.stack[0]] + s.stack[2..]))
      else None
    case RightArc =>
      if |s.stack| >= 2
      then Some(s.(arcs := [Arc(s.stack[1], s.stack[0])] + s.arcs, stack := [s.stack[1]] + s.stack[2..]))
      else None
    case Swap =>
      if |s.stack| >= 2 && s.stack[1] != ROOT && s.stack[0] != ROOT && s.stack[1] < s.stack[0]
      then Some(s.(stack := [s.stack[0]] + s.stack[2..], buffer := [s.stack[1]] + s.buffer))
      else None
    case Shift =>
      if s.buffer != []
      then Some(s.(stack := [s.buffer[0]] + s.stack, buffer := s.buffer[1..]))
      else None
  }

  /** The moves offered to the action chooser, in the order of the source's list. */
  function PossibleActions(s: State): seq<Action> {
    var i := if |s.stack| >= 2 then s.stack[1] else ROOT;
    (if i != ROOT && s.stack[0] != ROOT && i < s.stack[0] then [Swap] else [])
    + (if i != ROOT then [LeftArc] else [])
    + (if s.buffer != [] then [Shift] else [])
    + [RightArc]
  }

  /** Offered moves are enabled and enabled moves are offered, but :right-arc is offered even on a stack of one. */
  lemma OfferedIffEnabled(s: State, action: Action)
    ensures Step(s, action).Some? <==> action in PossibleActions(s) && (action == RightArc ==> |s.stack| >= 2)
  {
    assert forall a: seq<Action>, b: seq<Action> :: action in a + b <==> action in a || action in b;
  }

  /** What a chooser is handed: the enabled moves and the right arc, each once, in the order of the source's list. */
  ghost predicate OffersInOrder(s: State, actions: seq<Action>) {
    && (forall a :: a in actions <==> Step(s, a).Some? || a == RightArc)
    && Subsequence(actions, [Swap, LeftArc, Shift, RightArc])
  }

  function Rank(a: Action): nat {
    match a
    case Swap => 0
    case LeftArc => 1
    case Shift => 2
    case RightArc => 3
  }

  predicate RankLess(a: Action, b: Action) {
    Rank(a) < Rank(b)
  }

  lemma RanksAscend(actions: seq<Action>)
    requires Subsequence(actions, [Swap, LeftArc, Shift, RightArc])
    ensures forall i, j :: 0 <= i < j < |actions| ==> RankLess(actions[i], actions[j])
  {
    var at :| StandsAt(actions, [Swap, LeftArc, Shift, RightArc], at);
    assert forall i :: 0 <= i < |actions| ==> at[i] == Rank(actions[i]);
  }

  lemma PossibleInOrder(s: State)
    ensures OffersInOrder(s, PossibleActions(s))
  {
    forall a
      ensures a in PossibleActions(s) <==> Step(s, a).Some? || a == RightArc
    {
      OfferedIffEnabled(s, a);
    }
    var actions := PossibleActions(s);
    var at := seq(|actions|, k requires 0 <= k < |actions| => Rank(actions[k]));
    assert StandsAt(actions, [Swap, LeftArc, Shift, RightArc], at);
  }

  /** There is one such list, the one that is handed over. */
  lemma OfferedInOrder(s: State, actions: seq<Action>)
    ensures actions == PossibleActions(s) <==> OffersInOrder(s, actions)
  {
    PossibleInOrder(s);
    if OffersInOrder(s, actions) {
      RanksAscend(actions);
      RanksAscend(PossibleActions(s));
      SameOrder(actions, PossibleActions(s), RankLess);
    }
  }

  // ----- The configuration object.

  class Configuration {
    var stack: seq<Vertex>
    var buffer: seq<Vertex>
    var arcs: seq<Arc>

    constructor (vertices: seq<Vertex>)
      ensures View() == Initial(vertices)
    {
      stack, buffer, arcs := [ROOT], vertices, [];
    }

    constructor Copy(from: Configuration)
      ensures View() == from.View()
    {
      stack, buffer, arcs := from.stack, from.buffer, from.arcs;
    }

    function View(): State
      reads this
    {
      State(stack, buffer, arcs)
    }

    method DoLeftArc() returns (ok: bool)
      modifies this
      ensures ok <==> Step(old(View()), LeftArc).Some?
      ensures View() == if ok then Step(old(View()), LeftArc).value else old(View())
    {
      if |stack| >= 2 {
        var j, i := stack[0], stack[1];
        if i != ROOT {
          arcs := [Arc(j, i)] + arcs;
          stack := [j] + stack[2..];
          return true;
        }
      }
      return false;
    }

    method DoRightArc() returns (ok: bool)
      modifies this
      ensures ok <==> Step(old(View()), RightArc).Some?
      ensures View() == if ok then Step(old(View()), RightArc).value else old(View())
    {
      if |stack| >= 2 {
        var j, i := stack[0], stack[1];
        arcs := [Arc(i, j)] + arcs;
        stack := [i] + stack[2..];
        return true;
      }
      return false;
    }

    method DoShift() returns (ok: bool)
      modifies this
      ensures ok <==> Step(old(View()), Shift).Some?
      ensures View() == if ok then Step(old(View()), Shift).value else old(View())
    {
      if buffer != [] {
        var i := buffer[0];
        buffer := buffer[1..];
        stack := [i] + stack;
        return true;
      }
      return false;
    }

    method DoSwap() returns (ok: bool)
      modifies this
      ensures ok <==> Step(old(View()), Swap).Some?
      ensures View() == if ok then Step(old(View()), Swap).value else old(View())
    {
      if |stack| >= 2 {
        var j, i := stack[0], stack[1];
        if i != ROOT && j != ROOT && i < j {
          stack := [j] + stack[2..];
          buffer := [i] + buffer;
          return true;
        }
      }
      return false;
    }

    /** Works on a copy; this configuration is left as it was. */
    method Transitioned(action: Action) returns (copied: Configuration, ok: bool)
      ensures fresh(copied)
      ensures ok <==> Step(View(), action).Some?
      ensures ok ==> copied.View() == Step(View(), action).value
    {
      copied := new Configuration.Copy(this);
      match action {
        case LeftArc => ok := copied.DoLeftArc();
        case RightArc => ok := copied.DoRightArc();
        case Swap => ok := copied.DoSwap();
        case Shift => ok := copied.DoShift();
      }
    }
  }

  // ----- Runs.

  ghost predicate IsStep(s: State, t: State) {
    exists action :: Step(s, action) == Some(t)
  }

  /** A sequence of states, each the result of an enabled move from the one before, whatever chose the move. */
  ghost predicate IsRun(vertices: seq<Vertex>, states: seq<State>) {
    && |states| > 0
    && states[0] == Initial(vertices)
    && forall k :: 0 <= k < |states| - 1 ==> IsStep(states[k], states[k + 1])
  }

  /** The vertices still in play, in the order they stand: the stack from its bottom, then the buffer. */
  function Line(s: State): (line: seq<Vertex>)
    ensures |line| == |s.stack| + |s.buffer|
  {
    Reverse(s.stack) + s.buffer
  }

  function Children(arcs: seq<Arc>): (c: seq<Vertex>)
    ensures |c| == |arcs|
    ensures forall k :: 0 <= k < |arcs| ==> c[k] == arcs[k].child
  {
    seq(|arcs|, k requires 0 <= k < |arcs| => arcs[k].child)
  }

  ghost predicate Sentence(vertices: seq<Vertex>) {
    Distinct(vertices) && ROOT !in vertices
  }

  /** No arc has as its parent a vertex attached by the same arc or an older one (arcs are listed newest first). */
  ghost predicate AttachedForGood(arcs: seq<Arc>) {
    forall k, m :: 0 <= k <= m < |arcs| ==> arcs[k].parent != arcs[m].child
  }

  ghost predicate Placed(vertices: seq<Vertex>, s: State) {
    multiset(s.stack) + multiset(s.buffer) + multiset(Children(s.arcs)) == multiset(vertices) + multiset{ROOT}
  }

  /** The vertices are split between stack, buffer and attached children; the root is at the bottom of the stack. */
  ghost predicate Inv(vertices: seq<Vertex>, s: State) {
    && |s.stack| > 0 && s.stack[|s.stack| - 1] == ROOT
    && Placed(vertices, s)
    && AttachedForGood(s.arcs)
    && forall k :: 0 <= k < |s.arcs| ==> s.arcs[k].parent in vertices || s.arcs[k].parent == ROOT
  }

  lemma {:induction false} DistinctOnce(vertices: seq<Vertex>, x: Vertex)
    requires Distinct(vertices)
    ensures multiset(vertices)[x] <= 1
  {
    if vertices != [] {
      assert vertices == [vertices[0]] + vertices[1..];
      DistinctOnce(vertices[1..], x);
    }
  }

  /** No vertex stands in two places. */
  lemma InOnePlace(vertices: seq<Vertex>, s: State, x: Vertex)
    requires Sentence(vertices) && Inv(vertices, s)
    ensures multiset(s.stack)[x] + multiset(s.buffer)[x] + multiset(Children(s.arcs))[x] <= 1
  {
    DistinctOnce(vertices, x);
    var all := multiset(vertices) + multiset{ROOT};
    assert all[x] <= 1;
    assert (multiset(s.stack) + multiset(s.buffer) + multiset(Children(s.arcs)))[x] == all[x];
  }

  lemma PlacedVertex(vertices: seq<Vertex>, s: State, x: Vertex)
    requires Inv(vertices, s)
    requires x in s.stack || x in s.buffer || x in Children(s.arcs)
    ensures x in vertices || x == ROOT
  {
    assert x in multiset(s.stack) + multiset(s.buffer) + multiset(Children(s.arcs));
  }

  lemma InitialInv(vertices: seq<Vertex>)
    ensures Inv(vertices, Initial(vertices)) && Line(Initial(vertices)) == [ROOT] + vertices
  {
    assert Children([]) == [];
    assert Reverse([ROOT]) == [ROOT];
  }

  lemma AttachFresh(vertices: seq<Vertex>, s: State, parent: Vertex, child: Vertex, rest: seq<Vertex>)
    requires Sentence(vertices) && Inv(vertices, s)
    requires multiset(s.stack) == multiset{parent, child} + multiset(rest)
    ensures parent != child && parent !in Children(s.arcs)
    ensures parent in vertices || parent == ROOT
  {
    InOnePlace(vertices, s, parent);
    PlacedVertex(vertices, s, parent);
    assert parent in Children(s.arcs) <==> parent in multiset(Children(s.arcs));
  }

  lemma NewestAttached(arcs: seq<Arc>, a: Arc)
    requires AttachedForGood(arcs) && a.parent != a.child && a.parent !in Children(arcs)
    ensures AttachedForGood([a] + arcs)
    ensures Children([a] + arcs) == [a.child] + Children(arcs)
  {
    assert forall m :: 0 <= m < |arcs| ==> Children(arcs)[m] in Children(arcs);
  }

  lemma AttachKeepsPlaced(vertices: seq<Vertex>, s: State, parent: Vertex, child: Vertex, rest: seq<Vertex>)
    requires Placed(vertices, s)
    requires multiset(s.stack) == multiset{parent, child} + multiset(rest)
    ensures Placed(vertices, s.(arcs := [Arc(parent, child)] + s.arcs, stack := [parent] + rest))
  {
    assert Children([Arc(parent, child)] + s.arcs) == [child] + Children(s.arcs);
    assert multiset([child] + Children(s.arcs)) == multiset{child} + multiset(Children(s.arcs));
    assert multiset([parent] + rest) == multiset{parent} + multiset(rest);
  }

  lemma AttachKeepsInv(vertices: seq<Vertex>, s: State, parent: Vertex, child: Vertex, rest: seq<Vertex>)
    requires Sentence(vertices) && Inv(vertices, s)
    requires s.stack == [parent, child] + rest || s.stack == [child, parent] + rest
    requires rest == [] ==> parent == ROOT
    ensures Inv(vertices, s.(arcs := [Arc(parent, child)] + s.arcs, stack := [parent] + rest))
  {
    assert multiset(s.stack) == multiset{parent, child} + multiset(rest);
    AttachFresh(vertices, s, parent, child, rest);
    NewestAttached(s.arcs, Arc(parent, child));
    AttachKeepsPlaced(vertices, s, parent, child, rest);
    assert s.stack[|s.stack| - 1] == if rest == [] then s.stack[1] else rest[|rest| - 1];
  }

  lemma SwapKeepsInv(vertices: seq<Vertex>, s: State, j: Vertex, i: Vertex, rest: seq<Vertex>)
    requires Inv(vertices, s) && s.stack == [j, i] + rest && i != ROOT
    ensures Inv(vertices, s.(stack := [j] + rest, buffer := [i] + s.buffer))
  {
    assert multiset(s.stack) == multiset{j, i} + multiset(rest);
    assert s.stack[|s.stack| - 1] == if rest == [] then i else rest[|rest| - 1];
  }

  lemma ShiftKeepsInv(vertices: seq<Vertex>, s: State, i: Vertex, rest: seq<Vertex>)
    requires Inv(vertices, s) && s.buffer == [i] + rest
    ensures Inv(vertices, s.(stack := [i] + s.stack, buffer := rest))
  {
    assert multiset(s.buffer) == multiset{i} + multiset(rest);
    assert multiset([i] + s.stack) == multiset{i} + multiset(s.stack);
  }

  lemma StepKeepsInv(vertices: seq<Vertex>, s: State, action: Action)
    requires Sentence(vertices) && Inv(vertices, s)
    requires Step(s, action).Some?
    ensures Inv(vertices, Step(s, action).value)
  {
    if action == Shift {
      assert s.buffer == [s.buffer[0]] + s.buffer[1..];
      ShiftKeepsInv(vertices, s, s.buffer[0], s.buffer[1..]);
    } else {
      var j, i, rest := s.stack[0], s.stack[1], s.stack[2..];
      assert s.stack == [j, i] + rest;
      match action {
        case LeftArc => AttachKeepsInv(vertices, s, j, i, rest);
        case RightArc => AttachKeepsInv(vertices, s, i, j, rest);
        case Swap => SwapKeepsInv(vertices, s, j, i, rest);
      }
    }
  }

  lemma {:induction false} RunKeepsInv(vertices: seq<Vertex>, states: seq<State>, k: nat)
    requires Sentence(vertices) && IsRun(vertices, states) && k < |states|
    ensures Inv(vertices, states[k])
  {
    if k == 0 {
      InitialInv(vertices);
    } else {
      RunKeepsInv(vertices, states, k - 1);
      assert IsStep(states[k - 1], states[k]);
      var action :| Step(states[k - 1], action) == Some(states[k]);
      StepKeepsInv(vertices, states[k - 1], action);
    }
  }

  // ----- Termination.

  /** Twice the ascents left in the line, plus the vertices in play, plus those in the buffer. */
  function Potential(s: State): nat
    requires s.stack != []
  {
    2 * Ascents(Line(s)[1..]) + |Line(s)| - 1 + |s.buffer|
  }

  lemma ReverseTop(j: Vertex, i: Vertex, rest: seq<Vertex>)
    ensures Reverse([j, i] + rest) == Reverse(rest) + [i, j]
    ensures Reverse([j] + rest) == Reverse(rest) + [j]
  {
    assert ([j, i] + rest)[1..] == [i] + rest && ([i] + rest)[1..] == rest && ([j] + rest)[1..] == rest;
    assert Reverse(rest) + [i] + [j] == Reverse(rest) + [i, j];
  }

  lemma TopOfLine(s: State, j: Vertex, i: Vertex, rest: seq<Vertex>)
    requires s.stack == [j, i] + rest && rest != []
    ensures Line(s)[1..] == Reverse(rest)[1..] + [i, j] + s.buffer
  {
    ReverseTop(j, i, rest);
    var r := Reverse(rest);
    assert r == [r[0]] + r[1..];
    assert Line(s) == [r[0]] + (r[1..] + [i, j] + s.buffer);
  }

  lemma OneOnTop(s: State, top: Vertex, rest: seq<Vertex>)
    requires s.stack == [top] + rest && rest != []
    ensures Line(s)[1..] == Reverse(rest)[1..] + [top] + s.buffer
  {
    ReverseTop(top, top, rest);
    var r := Reverse(rest);
    assert r == [r[0]] + r[1..];
    assert Line(s) == [r[0]] + (r[1..] + [top] + s.buffer);
  }

  lemma SwappedOnLine(p: seq<Vertex>, j: Vertex, i: Vertex, q: seq<Vertex>)
    ensures p + [j] + ([i] + q) == p + [j, i] + q
  {
  }

  /** What a move other than a shift does to the line, after its bottom vertex has been set aside. */
  lemma MoveOnLine(s: State, j: Vertex, i: Vertex, rest: seq<Vertex>, action: Action, p: seq<Vertex>)
    requires s.stack == [j, i] + rest && rest != [] && p == Reverse(rest)[1..]
    requires action != Shift && Step(s, action).Some?
    ensures Line(s)[1..] == p + [i, j] + s.buffer
    ensures Line(Step(s, action).value)[1..] ==
            p + (if action == LeftArc then [j] else if action == RightArc then [i] else [j, i]) + s.buffer
  {
    TopOfLine(s, j, i, rest);
    assert s.stack[2..] == rest;
    OneOnTop(Step(s, action).value, if action == RightArc then i else j, rest);
    SwappedOnLine(p, j, i, s.buffer);
  }

  lemma ReduceOnLine(p: seq<Vertex>, j: Vertex, i: Vertex, q: seq<Vertex>)
    ensures Ascents(p + [j] + q) <= Ascents(p + [i, j] + q)
    ensures Ascents(p + [i] + q) <= Ascents(p + [i, j] + q)
  {
    assert p + [i, j] + q == p + [i] + ([j] + q) && p + [j] + q == p + ([j] + q);
    RemoveAddsNone(p, i, [j] + q);
    assert p + [i, j] + q == (p + [i]) + [j] + q;
    RemoveAddsNone(p + [i], j, q);
  }

  lemma ShiftOnLine(s: State)
    requires Step(s, Shift).Some?
    ensures Line(Step(s, Shift).value) == Line(s)
  {
    ReverseTop(s.buffer[0], s.buffer[0], s.stack);
    assert s.buffer == [s.buffer[0]] + s.buffer[1..];
  }

  /** Every enabled move brings the potential down. */
  lemma StepDecreases(s: State, action: Action)
    requires s.stack != [] && s.stack[|s.stack| - 1] == ROOT
    requires Step(s, action).Some?
    ensures Step(s, action).value.stack != []
    ensures Potential(Step(s, action).value) < Potential(s)
  {
    if action == Shift {
      ShiftOnLine(s);
    } else {
      var j, i, rest := s.stack[0], s.stack[1], s.stack[2..];
      assert s.stack == [j, i] + rest;
      if rest == [] {
        var t := Step(s, action).value;
        assert t.stack == [i] && Line(s)[1..] == [] + [j] + s.buffer && Line(t)[1..] == [] + s.buffer;
        RemoveAddsNone([], j, s.buffer);
      } else {
        var p := Reverse(rest)[1..];
        MoveOnLine(s, j, i, rest, action, p);
        ReduceOnLine(p, j, i, s.buffer);
        if action == Swap {
          SwapRemovesOne(p, i, j, s.buffer);
        }
      }
    }
  }

  predicate Rooted(s: State) {
    |s.stack| > 0 && s.stack[|s.stack| - 1] == ROOT
  }

  lemma StepRooted(s: State, action: Action)
    requires Rooted(s) && Step(s, action).Some?
    ensures Rooted(Step(s, action).value)
    ensures Potential(Step(s, action).value) < Potential(s)
  {
    StepDecreases(s, action);
  }

  lemma InitialPotential(vertices: seq<Vertex>)
    ensures Potential(Initial(vertices)) <= |vertices| * |vertices| + |vertices|
  {
    var s := Initial(vertices);
    assert s.stack[1..] == [];
    assert Reverse(s.stack) == [ROOT];
    assert Line(s)[1..] == vertices;
    AscentsBound(vertices);
    assert |vertices| * (|vertices| - 1) == |vertices| * |vertices| - |vertices|;
  }

  /** From n vertices in any order, no run makes more than n * n + n moves. */
  lemma {:induction false} RunIsShort(vertices: seq<Vertex>, states: seq<State>)
    requires Sentence(vertices) && IsRun(vertices, states)
    ensures |states| - 1 <= |vertices| * |vertices| + |vertices|
  {
    RunPaysPotential(vertices, states, |states| - 1);
    InitialPotential(vertices);
  }

  lemma {:induction false} RunPaysPotential(vertices: seq<Vertex>, states: seq<State>, k: nat)
    requires Sentence(vertices) && IsRun(vertices, states) && k < |states|
    ensures states[k].stack != [] && Potential(states[k]) + k <= Potential(Initial(vertices))
  {
    if k > 0 {
      RunPaysPotential(vertices, states, k - 1);
      RunKeepsInv(vertices, states, k - 1);
      assert IsStep(states[k - 1], states[k]);
      var action :| Step(states[k - 1], action) == Some(states[k]);
      StepDecreases(states[k - 1], action);
    }
  }

  /** No run gets stuck: every state that is not terminal has an enabled move among those offered. */
  lemma NeverStuck(vertices: seq<Vertex>, s: State)
    requires Inv(vertices, s) && !Terminated(s)
    ensures exists action :: action in PossibleActions(s) && Step(s, action).Some?
  {
    var action := if s.buffer != [] then Shift else RightArc;
    assert s.stack == [ROOT] || |s.stack| >= 2;
    OfferedIffEnabled(s, action);
  }

  ghost function AttachedAt(arcs: seq<Arc>, v: Vertex): (k: nat)
    requires v in Children(arcs)
    ensures k < |arcs| && arcs[k].child == v
  {
    var k :| 0 <= k < |arcs| && Children(arcs)[k] == v;
    k
  }

  /** A rank that grows along every arc: heads are attached later than their children, hence listed before them. */
  ghost function RankOf(arcs: seq<Arc>, v: Vertex): nat {
    if v in Children(arcs) then AttachedAt(arcs, v) + 1 else 0
  }

  lemma RankGrows(arcs: seq<Arc>, k: nat)
    requires DistinctChildren(arcs) && AttachedForGood(arcs) && k < |arcs|
    ensures arcs[k].child in Children(arcs) && RankOf(arcs, arcs[k].parent) < RankOf(arcs, arcs[k].child)
  {
    assert Children(arcs)[k] == arcs[k].child;
    assert AttachedAt(arcs, arcs[k].child) == k;
  }

  lemma AttachedIsArborescence(vs: set<Vertex>, arcs: seq<Arc>)
    requires DistinctChildren(arcs) && AttachedForGood(arcs) && ROOT !in vs
    requires forall v :: v in Children(arcs) <==> v in vs
    requires forall k :: 0 <= k < |arcs| ==> arcs[k].parent in vs || arcs[k].parent == ROOT
    ensures SpanningArborescence(vs + {ROOT}, ROOT, arcs)
  {
    var all := vs + {ROOT};
    var rank: map<Vertex, nat> := map v | v in all :: RankOf(arcs, v);
    forall a | a in arcs
      ensures a.parent in all && a.child in vs && rank[a.parent] < rank[a.child]
    {
      var k :| 0 <= k < |arcs| && arcs[k] == a;
      RankGrows(arcs, k);
    }
    forall v | v in all && v != ROOT
      ensures IsChild(arcs, v)
    {
      assert arcs[AttachedAt(arcs, v)] in arcs;
    }
    assert Ranks(all, arcs, rank);
    ArborescenceIffRanked(all, ROOT, arcs);
  }

  /** A terminal state holds a spanning arborescence of the sentence under the artificial root. */
  lemma TerminalIsArborescence(vertices: seq<Vertex>, s: State)
    requires Sentence(vertices) && Inv(vertices, s) && Terminated(s)
    ensures SpanningArborescence(VertexSet(vertices) + {ROOT}, ROOT, s.arcs)
  {
    TerminalChildren(vertices, s);
    ChildrenDistinct(vertices, s);
    AttachedIsArborescence(VertexSet(vertices), s.arcs);
  }

  lemma TerminalChildren(vertices: seq<Vertex>, s: State)
    requires Inv(vertices, s) && Terminated(s)
    ensures forall v :: v in Children(s.arcs) <==> v in vertices
  {
    assert multiset([ROOT]) == multiset{ROOT};
    assert multiset(Children(s.arcs)) == multiset(vertices) + multiset{ROOT} - multiset{ROOT};
    assert forall v :: v in Children(s.arcs) <==> v in multiset(Children(s.arcs));
  }

  lemma ChildrenDistinct(vertices: seq<Vertex>, s: State)
    requires Sentence(vertices) && Inv(vertices, s)
    ensures DistinctChildren(s.arcs)
  {
    forall i, j | 0 <= i < j < |s.arcs|
      ensures s.arcs[i].child != s.arcs[j].child
    {
      var c := Children(s.arcs);
      InOnePlace(vertices, s, c[i]);
      assert c == c[..j] + [c[j]] + c[j + 1..];
      assert c[i] in multiset(c[..j]);
    }
  }

  // ----- The parser.

  function NonRoot(arcs: seq<Arc>): seq<Arc> {
    if arcs == [] then []
    else (if arcs[0].parent == ROOT then [] else [arcs[0]]) + NonRoot(arcs[1..])
  }

  predicate NotFromRoot(a: Arc) {
    a.parent != ROOT
  }

  lemma {:induction false} NonRootKeeps(arcs: seq<Arc>)
    ensures Kept(NonRoot(arcs), arcs, NotFromRoot)
  {
    if arcs == [] {
      KeptNone(NotFromRoot);
    } else {
      NonRootKeeps(arcs[1..]);
      KeptTake(arcs[0], NonRoot(arcs[1..]), arcs[1..], NotFromRoot);
      assert arcs == [arcs[0]] + arcs[1..];
    }
  }

  lemma KeptDistinct(arcs: seq<Arc>, full: seq<Arc>)
    requires DistinctChildren(full) && Subsequence(arcs, full)
    ensures DistinctChildren(arcs)
  {
    var at :| StandsAt(arcs, full, at);
    forall i, j | 0 <= i < j < |arcs|
      ensures arcs[i].child != arcs[j].child
    {
      assert full[at[i]].child != full[at[j]].child;
    }
  }

  /** Only attaching the last vertex to the root terminates, so the state before lacks nothing but a root arc. */
  lemma LastMove(vertices: seq<Vertex>, s: State, action: Action)
    requires Inv(vertices, s) && Step(s, action).Some?
    requires Terminated(Step(s, action).value)
    ensures action == RightArc && s.buffer == [] && |s.stack| == 2
    ensures Step(s, action).value.arcs == [Arc(ROOT, s.stack[0])] + s.arcs
    ensures NonRoot(Step(s, action).value.arcs) == NonRoot(s.arcs)
  {
    var t := Step(s, action).value;
    assert action == Shift ==> |t.stack| == 1 + |s.stack|;
    if action != Shift {
      assert |s.stack| == |t.stack| + 1;
      assert s.stack[1] == ROOT;
      assert t.arcs[1..] == s.arcs || action != RightArc;
    }
  }

  /**
   The result is a spanning arborescence without its arcs from the root: every other arc once, in the same order, so
   that each vertex not headed by the root is a child exactly once, and no other vertex is one.
   */
  ghost predicate ParseOf(vertices: seq<Vertex>, arcs: seq<Arc>) {
    && DistinctChildren(arcs)
    && exists full :: SpanningArborescence(VertexSet(vertices) + {ROOT}, ROOT, full) && DropsRoot(vertices, full, arcs)
  }

  ghost predicate DropsRoot(vertices: seq<Vertex>, full: seq<Arc>, arcs: seq<Arc>) {
    && Kept(arcs, full, NotFromRoot)
    && forall v :: v in vertices ==> (IsChild(arcs, v) <==> Arc(ROOT, v) !in full)
  }

  lemma NonRootChild(full: seq<Arc>, arcs: seq<Arc>, v: Vertex)
    requires DistinctChildren(full) && IsChild(full, v) && Kept(arcs, full, NotFromRoot)
    ensures IsChild(arcs, v) <==> Arc(ROOT, v) !in full
  {
    var a :| a in full && a.child == v;
    KeptMember(arcs, full, NotFromRoot, a);
    if Arc(ROOT, v) in full {
      SameArc(full, a, Arc(ROOT, v));
      if b :| b in arcs && b.child == v {
        KeptMember(arcs, full, NotFromRoot, b);
        SameArc(full, a, b);
      }
    }
  }

  lemma NonRootIsParse(vertices: seq<Vertex>, full: seq<Arc>)
    requires SpanningArborescence(VertexSet(vertices) + {ROOT}, ROOT, full) && ROOT !in vertices
    ensures ParseOf(vertices, NonRoot(full))
  {
    NonRootKeeps(full);
    KeptDistinct(NonRoot(full), full);
    forall v | v in vertices
      ensures IsChild(NonRoot(full), v) <==> Arc(ROOT, v) !in full
    {
      assert v in VertexSet(vertices) + {ROOT};
      ArborescenceIffRanked(VertexSet(vertices) + {ROOT}, ROOT, full);
      NonRootChild(full, NonRoot(full), v);
    }
    assert DropsRoot(vertices, full, NonRoot(full));
  }

  /**
   The states that the stream yields from `s` when `actionFn` chooses: all but the terminal one, in order. `None`
   where a chosen move is not enabled, which is an error.
   */
  function ConfigurationStream(s: State, actionFn: (State, seq<Action>) -> Action): (r: Option<seq<State>>)
    requires Rooted(s)
    ensures r.Some? ==> |r.value| <= Potential(s) && (r.value == [] <==> Terminated(s))
    decreases Potential(s)
  {
    if Terminated(s) then Some([])
    else
      match Step(s, actionFn(s, PossibleActions(s)))
      case None => None
      case Some(next) =>
        StepRooted(s, actionFn(s, PossibleActions(s)));
        match ConfigurationStream(next, actionFn)
        case None => None
        case Some(rest) => Some([s] + rest)
  }

  lemma StreamStepsOn(s: State, actionFn: (State, seq<Action>) -> Action, next: State)
    requires Rooted(s) && !Terminated(s) && Step(s, actionFn(s, PossibleActions(s))) == Some(next)
    ensures Rooted(next)
    ensures Terminated(next) ==> ConfigurationStream(s, actionFn).Some? && LastArcs(s, actionFn) == NonRoot(s.arcs)
    ensures !Terminated(next) && ConfigurationStream(next, actionFn).Some? ==>
            ConfigurationStream(s, actionFn).Some? && LastArcs(s, actionFn) == LastArcs(next, actionFn)
  {
    StepRooted(s, actionFn(s, PossibleActions(s)));
    if Terminated(next) {
      assert ConfigurationStream(next, actionFn) == Some([]);
      assert [s] + [] == [s];
    }
  }

  predicate SomeNegative(nodes: seq<int>) {
    exists k :: 0 <= k < |nodes| && nodes[k] < 0
  }

  lemma NegativeIsRoot(nodes: seq<Vertex>)
    ensures SomeNegative(nodes) <==> ROOT in nodes
  {
    if ROOT in nodes {
      var k :| 0 <= k < |nodes| && nodes[k] == ROOT;
    }
  }

  /** What parsing reports: the non-root arcs of the last state of the stream. `None` is an error. */
  function ParseResult(nodes: seq<int>, actionFn: (State, seq<Action>) -> Action): Option<seq<Arc>> {
    if SomeNegative(nodes) then None
    else
      match ConfigurationStream(Initial(nodes), actionFn)
      case None => None
      case Some(states) => if states == [] then None else Some(NonRoot(states[|states| - 1].arcs))
  }

  /** The move chosen among those offered in `s`, in their order, leads to `t`; `None` when it is not enabled. */
  ghost predicate ChosenStep(s: State, actionFn: (State, seq<Action>) -> Action, t: Option<State>) {
    exists actions :: OffersInOrder(s, actions) && Step(s, actionFn(s, actions)) == t
  }

  /** The states from `s` on, each the result of the move chosen in the one before. */
  ghost predicate ChosenRun(s: State, actionFn: (State, seq<Action>) -> Action, states: seq<State>) {
    && states != [] && states[0] == s
    && forall k :: 0 <= k < |states| - 1 ==> ChosenStep(states[k], actionFn, Some(states[k + 1]))
  }

  lemma ChosenIs(s: State, actionFn: (State, seq<Action>) -> Action, t: Option<State>)
    ensures ChosenStep(s, actionFn, t) <==> Step(s, actionFn(s, PossibleActions(s))) == t
  {
    PossibleInOrder(s);
    if actions :| OffersInOrder(s, actions) && Step(s, actionFn(s, actions)) == t {
      OfferedInOrder(s, actions);
    }
  }

  lemma RunInFront(s: State, actionFn: (State, seq<Action>) -> Action, next: State, states: seq<State>)
    requires ChosenStep(s, actionFn, Some(next)) && ChosenRun(next, actionFn, states)
    ensures ChosenRun(s, actionFn, [s] + states)
  {
    var all := [s] + states;
    forall k | 0 <= k < |all| - 1
      ensures ChosenStep(all[k], actionFn, Some(all[k + 1]))
    {
      assert all[k + 1] == states[k];
      if k > 0 {
        assert all[k] == states[k - 1];
      }
    }
  }

  /**
   The stream is all but the last state of the run of chosen moves that ends in a terminal state. There is none when
   that run gets to a move that is not enabled.
   */
  lemma {:induction false} StreamEnds(s: State, actionFn: (State, seq<Action>) -> Action) returns (states: seq<State>)
    requires Rooted(s)
    ensures ChosenRun(s, actionFn, states)
    ensures var last, stream := states[|states| - 1], ConfigurationStream(s, actionFn);
            if stream.Some? then Terminated(last) && stream.value == states[..|states| - 1]
            else !Terminated(last) && ChosenStep(last, actionFn, None)
    decreases Potential(s)
  {
    states := [s];
    if !Terminated(s) {
      ChosenIs(s, actionFn, Step(s, actionFn(s, PossibleActions(s))));
      if Step(s, actionFn(s, PossibleActions(s))).Some? {
        states := StreamGoesOn(s, actionFn);
      }
    }
  }

  lemma {:induction false} StreamGoesOn(s: State, actionFn: (State, seq<Action>) -> Action)
    returns (states: seq<State>)
    requires Rooted(s) && !Terminated(s)
    requires Step(s, actionFn(s, PossibleActions(s))).Some?
    ensures ChosenRun(s, actionFn, states)
    ensures var last, stream := states[|states| - 1], ConfigurationStream(s, actionFn);
            if stream.Some? then Terminated(last) && stream.value == states[..|states| - 1]
            else !Terminated(last) && ChosenStep(last, actionFn, None)
    decreases Potential(s), 0
  {
    var next := Step(s, actionFn(s, PossibleActions(s))).value;
    StepRooted(s, actionFn(s, PossibleActions(s)));
    var rest := StreamEnds(next, actionFn);
    ChosenIs(s, actionFn, Some(next));
    RunInFront(s, actionFn, next, rest);
    states := [s] + rest;
    assert ([s] + rest)[..|rest|] == [s] + rest[..|rest| - 1];
  }

  lemma {:induction false} StreamSucceeds(vertices: seq<Vertex>, s: State, actionFn: (State, seq<Action>) -> Action)
    requires Sentence(vertices) && Inv(vertices, s)
    requires forall t :: Inv(vertices, t) && !Terminated(t) ==> Step(t, actionFn(t, PossibleActions(t))).Some?
    ensures ConfigurationStream(s, actionFn).Some?
    decreases Potential(s)
  {
    if !Terminated(s) {
      StepKeepsInv(vertices, s, actionFn(s, PossibleActions(s)));
      StepDecreases(s, actionFn(s, PossibleActions(s)));
      StreamSucceeds(vertices, Step(s, actionFn(s, PossibleActions(s))).value, actionFn);
    }
  }

  /**
   From distinct nodes a spanning arborescence without its root arcs is reported, each arc once, after at most
   n * n + n moves.
   */
  lemma ParseBuildsTree(nodes: seq<Vertex>, actionFn: (State, seq<Action>) -> Action)
    requires Distinct(nodes) && ParseResult(nodes, actionFn).Some?
    ensures ParseOf(nodes, ParseResult(nodes, actionFn).value)
    ensures |ConfigurationStream(Initial(nodes), actionFn).value| <= |nodes| * |nodes| + |nodes|
  {
    ResultIffStream(nodes, actionFn);
    InitialInv(nodes);
    InitialPotential(nodes);
    var states := StreamEnds(Initial(nodes), actionFn);
    var n := |states| - 1;
    RunOfSteps(nodes, actionFn, states);
    RunKeepsInv(nodes, states, n - 1);
    RunKeepsInv(nodes, states, n);
    ChosenIs(states[n - 1], actionFn, Some(states[n]));
    LastMove(nodes, states[n - 1], actionFn(states[n - 1], PossibleActions(states[n - 1])));
    TerminalIsArborescence(nodes, states[n]);
    NonRootIsParse(nodes, states[n].arcs);
  }

  lemma RunOfSteps(nodes: seq<Vertex>, actionFn: (State, seq<Action>) -> Action, states: seq<State>)
    requires ChosenRun(Initial(nodes), actionFn, states)
    ensures IsRun(nodes, states)
  {
    forall k | 0 <= k < |states| - 1
      ensures IsStep(states[k], states[k + 1])
    {
      assert ChosenStep(states[k], actionFn, Some(states[k + 1]));
    }
  }

  /** What the run of chosen moves makes of the nodes: its last arcs but those from the root, or an error. */
  ghost predicate ResultOf(nodes: seq<int>, actionFn: (State, seq<Action>) -> Action, result: Option<seq<Arc>>) {
    if SomeNegative(nodes) || nodes == [] then result == None
    else exists states :: ChosenRun(Initial(nodes), actionFn, states) && ResultOfRun(states, actionFn, result)
  }

  /** The terminal state is the last of the run; the arcs are those of the state before it. */
  ghost predicate ResultOfRun(states: seq<State>, actionFn: (State, seq<Action>) -> Action, result: Option<seq<Arc>>)
    requires states != []
  {
    var n := |states| - 1;
    match result
    case Some(arcs) => Terminated(states[n]) && n >= 1 && Kept(arcs, states[n - 1].arcs, NotFromRoot)
    case None => !Terminated(states[n]) && ChosenStep(states[n], actionFn, None)
  }

  lemma ParseResultIs(nodes: seq<int>, actionFn: (State, seq<Action>) -> Action)
    ensures ResultOf(nodes, actionFn, ParseResult(nodes, actionFn))
  {
    if !SomeNegative(nodes) {
      var states := StreamEnds(Initial(nodes), actionFn);
      var n := |states| - 1;
      if n > 0 {
        NonRootKeeps(states[n - 1].arcs);
      }
      assert nodes != [] ==> ResultOfRun(states, actionFn, ParseResult(nodes, actionFn));
    }
  }

  lemma ResultIffStream(nodes: seq<Vertex>, actionFn: (State, seq<Action>) -> Action)
    ensures ParseResult(nodes, actionFn).Some? <==>
            nodes != [] && ROOT !in nodes && ConfigurationStream(Initial(nodes), actionFn).Some?
    ensures ParseResult(nodes, actionFn).Some? ==>
              ParseResult(nodes, actionFn).value == LastArcs(Initial(nodes), actionFn)
  {
    NegativeIsRoot(nodes);
  }

  /** The non-root arcs of the last state before the terminal one. */
  function LastArcs(s: State, actionFn: (State, seq<Action>) -> Action): seq<Arc>
    requires Rooted(s) && !Terminated(s) && ConfigurationStream(s, actionFn).Some?
  {
    var states := ConfigurationStream(s, actionFn).value;
    NonRoot(states[|states| - 1].arcs)
  }

  /** There is a result when the chooser picks enabled moves, unless there is no node or a negative one. */
  lemma ParseSucceeds(nodes: seq<Vertex>, actionFn: (State, seq<Action>) -> Action)
    requires Distinct(nodes)
    requires forall s :: Inv(nodes, s) && !Terminated(s) ==> Step(s, actionFn(s, PossibleActions(s))).Some?
    ensures ParseResult(nodes, actionFn).Some? <==> nodes != [] && ROOT !in nodes
  {
    ResultIffStream(nodes, actionFn);
    if ROOT !in nodes {
      InitialInv(nodes);
      StreamSucceeds(nodes, Initial(nodes), actionFn);
    }
  }

  function LastOf(stream: Option<seq<State>>): Option<seq<Arc>> {
    if stream.None? || stream.value == [] then None else Some(stream.value[|stream.value| - 1].arcs)
  }

  /** Runs the chooser until the terminal state; the arcs are those of the last state before it. */
  method LastArcsOfStream(nodes: seq<Vertex>, actionFn: (State, seq<Action>) -> Action)
    returns (arcs: Option<seq<Arc>>)
    ensures arcs == LastOf(ConfigurationStream(Initial(nodes), actionFn))
  {
    var config := new Configuration(nodes);
    arcs := None;
    ghost var all, seen := ConfigurationStream(Initial(nodes), actionFn), [];
    StreamFromHere(all);
    while !Terminated(config.View())
      invariant Rooted(config.View())
      invariant all == StreamAfter(seen, ConfigurationStream(config.View(), actionFn))
      invariant arcs == LastOf(Some(seen))
      decreases Potential(config.View())
    {
      ghost var s := config.View();
      arcs := Some(config.arcs);
      var action := actionFn(config.View(), PossibleActions(config.View()));
      var next, ok := config.Transitioned(action);
      if !ok {
        return None;
      }
      StepRooted(s, action);
      StreamStep(seen, s, ConfigurationStream(next.View(), actionFn));
      seen := seen + [s];
      config := next;
    }
    assert seen + [] == seen;
  }

  /** Reports the arcs of the last state before the terminal one, but those from the root. */
  method Parse(nodes: seq<int>, actionFn: (State, seq<Action>) -> Action) returns (result: Option<seq<Arc>>)
    ensures result == ParseResult(nodes, actionFn) && ResultOf(nodes, actionFn, result)
  {
    ParseResultIs(nodes, actionFn);
    if SomeNegative(nodes) {
      return None;
    }
    var arcs := LastArcsOfStream(nodes, actionFn);
    return if arcs.None? then None else Some(NonRoot(arcs.value));
  }

  ghost function StreamAfter(seen: seq<State>, rest: Option<seq<State>>): Option<seq<State>> {
    if rest.None? then None else Some(seen + rest.value)
  }

  lemma StreamFromHere(rest: Option<seq<State>>)
    ensures StreamAfter([], rest) == rest
  {
    if rest.Some? {
      assert [] + rest.value == rest.value;
    }
  }

  lemma StreamStep(seen: seq<State>, s: State, rest: Option<seq<State>>)
    ensures StreamAfter(seen, StreamAfter([s], rest)) == StreamAfter(seen + [s], rest)
  {
    if rest.Some? {
      assert seen + ([s] + rest.value) == seen + [s] + rest.value;
    }
  }
}
