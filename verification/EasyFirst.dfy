/**
 The easy-first parser: a list of pending nodes, headed by the root, in which a node is attached to a neighbour
 or exchanged with one, whatever scorer makes the choice.
 */
module EasyFirst {
  import opened Options
  import opened Sequences
  import opened Arborescences
  import opened Inversions
  import opened ProjectiveOrder
  import SR = ShiftReduce

  const ROOT: Vertex := SR.ROOT

  datatype Action = Attach(source: Vertex, target: Vertex) | Move(left: Vertex, right: Vertex)

  datatype State = State(pendings: seq<Vertex>, arcs: seq<Arc>)

  function Initial(nodes: seq<Vertex>): State {
    State([ROOT] + Sorted(nodes), [])
  }

  predicate Terminated(s: State) {
    s.pendings == [ROOT]
  }

  function Remove(x: Vertex, s: seq<Vertex>): seq<Vertex> {
    if s == [] then [] else (if s[0] == x then [] else [s[0]]) + Remove(x, s[1..])
  }

  /** Both items are looked up by value, then overwritten, the second one first. */
  function Swapped(s: seq<Vertex>, item1: Vertex, item2: Vertex): seq<Vertex>
    requires item1 in s && item2 in s
  {
    s[Pos(s, item2) := item1][Pos(s, item1) := item2]
  }

  /** `None` where a move names a node that is not pending. */
  function Step(s: State, action: Action): Option<State> {
    match action
    case Attach(source, target) => Some(State(Remove(source, s.pendings), [Arc(target, source)] + s.arcs))
    case Move(left, right) =>
      if left in s.pendings && right in s.pendings then Some(s.(pendings := Swapped(s.pendings, left, right))) else None
  }

  /** The attachments among the first `n + 1` pending nodes, latest first. */
  function Attaches(p: seq<Vertex>, n: nat): seq<Action>
    requires n == 0 || n < |p|
  {
    if n == 0 then []
    else [Attach(p[n], p[n - 1])] + (if p[n - 1] != ROOT then [Attach(p[n - 1], p[n])] else []) + Attaches(p, n - 1)
  }

  /** The exchanges of neighbours in ascending order, up to the `n`-th pending node; the root is not moved. */
  function Moves(p: seq<Vertex>, n: nat): seq<Action>
    requires n == 0 || n < |p|
  {
    if n <= 1 then []
    else Moves(p, n - 1) + if p[n - 1] < p[n] then [Move(p[n - 1], p[n])] else []
  }

  function Offered(p: seq<Vertex>): seq<Action> {
    if p == [] then [] else Attaches(p, |p| - 1) + Moves(p, |p| - 1)
  }

  // ----- As the source runs them.

  method ListSwap(list: array<Vertex>, item1: Vertex, item2: Vertex)
    requires item1 in list[..] && item2 in list[..]
    modifies list
    ensures list[..] == Swapped(old(list[..]), item1, item2)
  {
    var index1, index2 := Pos(list[..], item1), Pos(list[..], item2);
    list[index2] := item1;
    list[index1] := item2;
  }

  /** Moves in a copy of the pending list. */
  method ConfigurationMove(s: State, left: Vertex, right: Vertex) returns (t: State)
    requires left in s.pendings && right in s.pendings
    ensures Step(s, Move(left, right)) == Some(t)
  {
    var copied := new Vertex[|s.pendings|](i requires 0 <= i < |s.pendings| => s.pendings[i]);
    assert copied[..] == s.pendings;
    ListSwap(copied, left, right);
    return s.(pendings := copied[..]);
  }

  /** The root stands only at the head, so no attachment takes it as its source. */
  method CollectAttaches(p: seq<Vertex>) returns (actions: seq<Action>)
    requires p != [] && forall i :: 1 <= i < |p| ==> p[i] != ROOT
    ensures actions == Attaches(p, |p| - 1)
    ensures forall a :: a in actions ==> a.Attach? && a.source != ROOT
  {
    actions := [];
    for i := 0 to |p| - 1
      invariant actions == Attaches(p, i)
      invariant forall a :: a in actions ==> a.Attach? && a.source != ROOT
    {
      var left, right := p[i], p[i + 1];
      if left != ROOT {
        actions := [Attach(left, right)] + actions;
      }
      actions := [Attach(right, left)] + actions;
    }
  }

  method CollectMoves(p: seq<Vertex>) returns (actions: seq<Action>)
    requires p != []
    ensures actions == Moves(p, |p| - 1)
    ensures forall a :: a in actions ==> a.Move? && a.left < a.right
  {
    actions := [];
    var i := 1;
    while i < |p| - 1
      invariant 1 <= i && (i <= |p| - 1 || |p| == 1)
      invariant actions == Moves(p, if i < |p| then i else 0)
      invariant forall a :: a in actions ==> a.Move? && a.left < a.right
    {
      if p[i] < p[i + 1] {
        actions := actions + [Move(p[i], p[i + 1])];
      }
      i := i + 1;
    }
  }

  // ----- What is offered.

  /** Attaches one of two neighbours to the other; the root is never attached to its right neighbour. */
  predicate AttachBetween(p: seq<Vertex>, i: nat, action: Action) {
    i + 1 < |p| && (action == Attach(p[i + 1], p[i]) || (p[i] != ROOT && action == Attach(p[i], p[i + 1])))
  }

  /** Exchanges two neighbours in ascending order, neither of them at the head. */
  predicate MoveBetween(p: seq<Vertex>, i: nat, action: Action) {
    1 <= i && i + 1 < |p| && p[i] < p[i + 1] && action == Move(p[i], p[i + 1])
  }

  ghost predicate AttachBefore(p: seq<Vertex>, n: nat, action: Action) {
    exists i: nat :: i < n && AttachBetween(p, i, action)
  }

  lemma AttachBeforeGrows(p: seq<Vertex>, n: nat, action: Action)
    ensures AttachBefore(p, n + 1, action) <==> AttachBefore(p, n, action) || AttachBetween(p, n, action)
  {
  }

  lemma {:induction false} AttachesAre(p: seq<Vertex>, n: nat, action: Action)
    requires n == 0 || n < |p|
    ensures action in Attaches(p, n) <==> AttachBefore(p, n, action)
  {
    if n > 0 {
      AttachesAre(p, n - 1, action);
      AttachBeforeGrows(p, n - 1, action);
    }
  }

  lemma {:induction false} MovesAre(p: seq<Vertex>, n: nat, action: Action)
    requires n == 0 || n < |p|
    ensures action in Moves(p, n) <==> exists i: nat :: i < n && MoveBetween(p, i, action)
  {
    if n > 1 {
      MovesAre(p, n - 1, action);
      assert MoveBetween(p, n - 1, action) <==> p[n - 1] < p[n] && action == Move(p[n - 1], p[n]);
    }
  }

  predicate Between(p: seq<Vertex>, i: nat, action: Action) {
    AttachBetween(p, i, action) || MoveBetween(p, i, action)
  }

  /** The offered actions are those between neighbours, and no others. */
  lemma OfferedIff(p: seq<Vertex>, action: Action)
    ensures action in Offered(p) <==> exists i: nat :: Between(p, i, action)
  {
    if p != [] {
      var n := |p| - 1;
      AttachesAre(p, n, action);
      MovesAre(p, n, action);
      if action in Attaches(p, n) {
        var i: nat :| i < n && AttachBetween(p, i, action);
        assert Between(p, i, action);
      } else if action in Moves(p, n) {
        var i: nat :| i < n && MoveBetween(p, i, action);
        assert Between(p, i, action);
      }
    }
  }

  /** `a`, between the neighbours from `i`, is offered before `b`, between those from `j`. */
  predicate Earlier(p: seq<Vertex>, i: nat, a: Action, j: nat, b: Action) {
    if a.Attach? then b.Move? || j < i || (i == j && i + 1 < |p| && a == Attach(p[i + 1], p[i]) && a != b)
    else b.Move? && i < j
  }

  ghost predicate Before(p: seq<Vertex>, a: Action, b: Action) {
    exists i: nat, j: nat :: Between(p, i, a) && Between(p, j, b) && Earlier(p, i, a, j, b)
  }

  /**
   What a chooser is handed: every action between neighbours, the attachments before the moves; the attachments
   from the last pair of neighbours to the first, onto the left one first; the moves from left to right.
   */
  ghost predicate OffersInOrder(p: seq<Vertex>, actions: seq<Action>) {
    && (forall a :: a in actions <==> exists i: nat :: Between(p, i, a))
    && forall k, m :: 0 <= k < m < |actions| ==> Before(p, actions[k], actions[m])
  }

  lemma LastPairFirst(p: seq<Vertex>, n: nat, a: Action, b: Action)
    requires AttachBetween(p, n, a) && AttachBefore(p, n, b)
    ensures Before(p, a, b)
  {
    var j: nat :| j < n && AttachBetween(p, j, b);
    assert Between(p, n, a) && Between(p, j, b) && Earlier(p, n, a, j, b);
  }

  lemma {:induction false} AttachesInOrder(p: seq<Vertex>, n: nat)
    requires (n == 0 || n < |p|) && Distinct(p)
    ensures forall k, m :: 0 <= k < m < |Attaches(p, n)| ==> Before(p, Attaches(p, n)[k], Attaches(p, n)[m])
  {
    if n > 0 {
      var rest, onto, right := Attaches(p, n - 1), Attach(p[n], p[n - 1]), Attach(p[n - 1], p[n]);
      AttachesInOrder(p, n - 1);
      forall b | b in rest
        ensures Before(p, onto, b) && (p[n - 1] != ROOT ==> Before(p, right, b))
      {
        AttachesAre(p, n - 1, b);
        LastPairFirst(p, n - 1, onto, b);
        if p[n - 1] != ROOT { LastPairFirst(p, n - 1, right, b); }
      }
      if p[n - 1] != ROOT {
        assert Between(p, n - 1, onto) && Between(p, n - 1, right) && Earlier(p, n - 1, onto, n - 1, right);
      }
      InFront(p, onto, if p[n - 1] != ROOT then [right] else [], rest);
    }
  }

  lemma InFront(p: seq<Vertex>, first: Action, second: seq<Action>, rest: seq<Action>)
    requires |second| <= 1 && forall b :: b in second + rest ==> Before(p, first, b)
    requires forall a, b :: a in second && b in rest ==> Before(p, a, b)
    requires forall k, m :: 0 <= k < m < |rest| ==> Before(p, rest[k], rest[m])
    ensures var all := [first] + second + rest;
            forall k, m :: 0 <= k < m < |all| ==> Before(p, all[k], all[m])
  {
    var all := [first] + second + rest;
    assert all[1..] == second + rest;
    forall k, m | 0 <= k < m < |all|
      ensures Before(p, all[k], all[m])
    {
      assert all[m] == all[1..][m - 1] && all[m] in second + rest;
    }
  }

  lemma {:induction false} MovesInOrder(p: seq<Vertex>, n: nat)
    requires n == 0 || n < |p|
    ensures forall k, m :: 0 <= k < m < |Moves(p, n)| ==> Before(p, Moves(p, n)[k], Moves(p, n)[m])
  {
    if n > 1 {
      MovesInOrder(p, n - 1);
      var last := Move(p[n - 1], p[n]);
      forall a | a in Moves(p, n - 1) && p[n - 1] < p[n]
        ensures Before(p, a, last)
      {
        MovesAre(p, n - 1, a);
        var i: nat :| i < n - 1 && MoveBetween(p, i, a);
        assert Between(p, i, a) && Between(p, n - 1, last) && Earlier(p, i, a, n - 1, last);
      }
    }
  }

  lemma AppendInOrder(p: seq<Vertex>, first: seq<Action>, second: seq<Action>)
    requires forall k, m :: 0 <= k < m < |first| ==> Before(p, first[k], first[m])
    requires forall k, m :: 0 <= k < m < |second| ==> Before(p, second[k], second[m])
    requires forall a, b :: a in first && b in second ==> Before(p, a, b)
    ensures var all := first + second;
            forall k, m :: 0 <= k < m < |all| ==> Before(p, all[k], all[m])
  {
  }

  lemma AllInOrder(p: seq<Vertex>)
    requires Distinct(p)
    ensures forall k, m :: 0 <= k < m < |Offered(p)| ==> Before(p, Offered(p)[k], Offered(p)[m])
  {
    if p != [] {
      var n := |p| - 1;
      AttachesInOrder(p, n);
      MovesInOrder(p, n);
      forall a, b | a in Attaches(p, n) && b in Moves(p, n)
        ensures Before(p, a, b)
      {
        AttachThenMove(p, n, a, b);
      }
      AppendInOrder(p, Attaches(p, n), Moves(p, n));
    }
  }

  lemma OfferedOrder(p: seq<Vertex>)
    requires Distinct(p)
    ensures OffersInOrder(p, Offered(p))
  {
    forall a
      ensures a in Offered(p) <==> exists i: nat :: Between(p, i, a)
    {
      OfferedIff(p, a);
    }
    AllInOrder(p);
  }

  lemma AttachThenMove(p: seq<Vertex>, n: nat, a: Action, b: Action)
    requires (n == 0 || n < |p|) && a in Attaches(p, n) && b in Moves(p, n)
    ensures Before(p, a, b)
  {
    AttachesAre(p, n, a);
    MovesAre(p, n, b);
    var i: nat :| i < n && AttachBetween(p, i, a);
    var j: nat :| j < n && MoveBetween(p, j, b);
    assert Between(p, i, a) && Between(p, j, b) && Earlier(p, i, a, j, b);
  }

  /** An action stands between one pair of neighbours only. */
  lemma OnePlace(p: seq<Vertex>, i: nat, j: nat, a: Action)
    requires Distinct(p) && Between(p, i, a) && Between(p, j, a)
    ensures i == j
  {
  }

  lemma NeverBothWays(p: seq<Vertex>, a: Action, b: Action)
    requires Distinct(p) && Before(p, a, b)
    ensures !Before(p, b, a) && a != b
  {
    var i: nat, j: nat :| Between(p, i, a) && Between(p, j, b) && Earlier(p, i, a, j, b);
    if Before(p, b, a) || a == b {
      var j': nat, i': nat :| Between(p, j', b) && Between(p, i', a) && (a == b || Earlier(p, j', b, i', a));
      OnePlace(p, i, i', a);
      OnePlace(p, j, j', b);
      if a == b { OnePlace(p, i, j, a); }
    }
  }

  /** There is one such list, the one that is handed over; no action stands in it twice. */
  lemma OfferedInOrder(p: seq<Vertex>, actions: seq<Action>)
    requires Distinct(p)
    ensures actions == Offered(p) <==> OffersInOrder(p, actions)
    ensures actions == Offered(p) ==> forall k, m :: 0 <= k < m < |actions| ==> actions[k] != actions[m]
  {
    OfferedOrder(p);
    forall a, b | Before(p, a, b)
      ensures !Before(p, b, a) && a != b
    {
      NeverBothWays(p, a, b);
    }
    if OffersInOrder(p, actions) {
      var less := (a, b) requires true => Before(p, a, b);
      SameOrder(actions, Offered(p), less);
    }
  }

  // ----- What every step keeps.

  /** The shift-reduce state with the same vertices in play: the root on the stack, the others in the buffer. */
  ghost function View(s: State): SR.State
    requires s.pendings != []
  {
    SR.State([ROOT], s.pendings[1..], s.arcs)
  }

  /** The root heads the pending list; every node is either pending or attached, once and for good. */
  ghost predicate Inv(nodes: seq<Vertex>, s: State) {
    s.pendings != [] && s.pendings[0] == ROOT && SR.Inv(nodes, View(s))
  }

  /** At the start the root stands before all nodes, which ascend, and nothing is attached. */
  lemma InitialAscends(nodes: seq<Vertex>)
    ensures var s := Initial(nodes);
            && s.arcs == [] && |s.pendings| == 1 + |nodes| && s.pendings[0] == ROOT
            && Ascending(s.pendings[1..]) && multiset(s.pendings[1..]) == multiset(nodes)
  {
    SortedSorts(nodes);
    assert ([ROOT] + Sorted(nodes))[1..] == Sorted(nodes);
    assert |multiset(Sorted(nodes))| == |multiset(nodes)|;
  }

  lemma InitialInv(nodes: seq<Vertex>)
    ensures Inv(nodes, Initial(nodes))
  {
    SortedSorts(nodes);
    assert ([ROOT] + Sorted(nodes))[1..] == Sorted(nodes);
    assert SR.Children([]) == [];
  }

  lemma PendingOnce(nodes: seq<Vertex>, s: State, k: nat)
    requires SR.Sentence(nodes) && Inv(nodes, s) && k < |s.pendings|
    ensures forall m :: 0 <= m < |s.pendings| && m != k ==> s.pendings[m] != s.pendings[k]
    ensures s.pendings[k] !in SR.Children(s.arcs)
    ensures s.pendings[k] in nodes || s.pendings[k] == ROOT
  {
    var p, x := s.pendings, s.pendings[k];
    assert p == [ROOT] + p[1..];
    SR.InOnePlace(nodes, View(s), x);
    SR.PlacedVertex(nodes, View(s), x);
    assert x in SR.Children(s.arcs) <==> x in multiset(SR.Children(s.arcs));
    assert multiset(p)[x] == multiset([ROOT])[x] + multiset(p[1..])[x];
    assert multiset(p)[x] <= 1;
    OnceElsewhere(p, k);
  }

  lemma OnceElsewhere(p: seq<Vertex>, k: nat)
    requires k < |p| && multiset(p)[p[k]] <= 1
    ensures forall m :: 0 <= m < |p| && m != k ==> p[m] != p[k]
  {
    var before, after := p[..k], p[k + 1..];
    assert p == before + [p[k]] + after;
    assert multiset(p) == multiset(before) + multiset{p[k]} + multiset(after);
    forall m | 0 <= m < |p| && m != k
      ensures p[m] != p[k]
    {
      if m < k {
        assert before[m] in multiset(before);
      } else {
        assert after[m - k - 1] in multiset(after);
      }
    }
  }

  lemma {:induction false} RemoveOnly(before: seq<Vertex>, x: Vertex, after: seq<Vertex>)
    requires x !in before && x !in after
    ensures Remove(x, before + [x] + after) == before + after
    ensures Remove(x, after) == after
  {
    if before == [] {
      assert before + [x] + after == [x] + after && before + after == after;
      if after != [] { RemoveOnly([], x, after[1..]); }
      assert ([x] + after)[1..] == after;
    } else {
      assert (before + [x] + after)[1..] == before[1..] + [x] + after;
      assert (before + after)[1..] == before[1..] + after;
      RemoveOnly(before[1..], x, after);
    }
  }

  lemma SplitAt(p: seq<Vertex>, k: nat)
    requires k < |p| && forall m :: 0 <= m < |p| && m != k ==> p[m] != p[k]
    ensures p == p[..k] + [p[k]] + p[k + 1..] && p[k] !in p[..k] && p[k] !in p[k + 1..]
  {
  }

  lemma RemoveAt(p: seq<Vertex>, k: nat)
    requires k < |p| && forall m :: 0 <= m < |p| && m != k ==> p[m] != p[k]
    ensures Remove(p[k], p) == p[..k] + p[k + 1..]
  {
    SplitAt(p, k);
    RemoveOnly(p[..k], p[k], p[k + 1..]);
  }

  lemma AttachKeepsPlaced(nodes: seq<Vertex>, s: State, k: nat, target: Vertex)
    requires Inv(nodes, s) && 1 <= k < |s.pendings|
    ensures SR.Placed(nodes,
              SR.State([ROOT], s.pendings[1..k] + s.pendings[k + 1..], [Arc(target, s.pendings[k])] + s.arcs))
  {
    var p, source := s.pendings, s.pendings[k];
    assert p[1..] == p[1..k] + [source] + p[k + 1..];
    assert SR.Children([Arc(target, source)] + s.arcs) == [source] + SR.Children(s.arcs);
    assert multiset([source] + SR.Children(s.arcs)) == multiset{source} + multiset(SR.Children(s.arcs));
  }

  lemma AttachKeeps(nodes: seq<Vertex>, s: State, k: nat, t: nat)
    requires SR.Sentence(nodes) && Inv(nodes, s)
    requires 1 <= k < |s.pendings| && t < |s.pendings| && t != k
    ensures var next := Step(s, Attach(s.pendings[k], s.pendings[t])).value;
            && Inv(nodes, next) && next.pendings == s.pendings[..k] + s.pendings[k + 1..]
  {
    var p, source, target := s.pendings, s.pendings[k], s.pendings[t];
    PendingOnce(nodes, s, k);
    PendingOnce(nodes, s, t);
    RemoveAt(p, k);
    var q := p[..k] + p[k + 1..];
    SR.NewestAttached(s.arcs, Arc(target, source));
    AttachKeepsPlaced(nodes, s, k, target);
    assert q[1..] == p[1..k] + p[k + 1..];
  }

  lemma SwappedNeighbours(p: seq<Vertex>, i: nat)
    requires i + 1 < |p|
    requires forall m :: 0 <= m < |p| && m != i ==> p[m] != p[i]
    requires forall m :: 0 <= m < |p| && m != i + 1 ==> p[m] != p[i + 1]
    ensures Swapped(p, p[i], p[i + 1]) == p[..i] + [p[i + 1], p[i]] + p[i + 2..]
  {
    assert Pos(p, p[i]) == i && Pos(p, p[i + 1]) == i + 1;
  }

  lemma SwapKeepsInv(nodes: seq<Vertex>, s: State, before: seq<Vertex>, left: Vertex, right: Vertex, after: seq<Vertex>)
    requires Inv(nodes, s) && s.pendings == [ROOT] + (before + [left, right] + after)
    ensures Inv(nodes, s.(pendings := [ROOT] + (before + [right, left] + after)))
  {
    var p, q := before + [left, right] + after, before + [right, left] + after;
    assert s.pendings[1..] == p && ([ROOT] + q)[1..] == q;
    assert multiset(p) == multiset(q);
  }

  lemma AroundNeighbours(p: seq<Vertex>, i: nat)
    requires p != [] && p[0] == ROOT && 1 <= i < |p| - 1
    ensures p == [ROOT] + (p[1..i] + [p[i], p[i + 1]] + p[i + 2..])
    ensures p[..i] + [p[i + 1], p[i]] + p[i + 2..] == [ROOT] + (p[1..i] + [p[i + 1], p[i]] + p[i + 2..])
  {
  }

  lemma MoveKeeps(nodes: seq<Vertex>, s: State, i: nat)
    requires SR.Sentence(nodes) && Inv(nodes, s)
    requires 1 <= i < |s.pendings| - 1 && s.pendings[i] < s.pendings[i + 1]
    ensures var next := Step(s, Move(s.pendings[i], s.pendings[i + 1]));
            && next.Some? && Inv(nodes, next.value) && |next.value.pendings| == |s.pendings|
               && next.value.arcs == s.arcs
            && Ascents(next.value.pendings[1..]) + 1 == Ascents(s.pendings[1..])
  {
    var p := s.pendings;
    PendingOnce(nodes, s, i);
    PendingOnce(nodes, s, i + 1);
    SwappedNeighbours(p, i);
    AroundNeighbours(p, i);
    SwapKeepsInv(nodes, s, p[1..i], p[i], p[i + 1], p[i + 2..]);
    MoveAscents(p, i);
  }

  lemma MoveAscents(p: seq<Vertex>, i: nat)
    requires p != [] && p[0] == ROOT && 1 <= i < |p| - 1 && p[i] < p[i + 1]
    ensures Ascents((p[..i] + [p[i + 1], p[i]] + p[i + 2..])[1..]) + 1 == Ascents(p[1..])
  {
    var before, after := p[1..i], p[i + 2..];
    assert p[1..] == before + [p[i], p[i + 1]] + after;
    assert (p[..i] + [p[i + 1], p[i]] + after)[1..] == before + [p[i + 1], p[i]] + after;
    SwapRemovesOne(before, p[i], p[i + 1], after);
  }

  lemma AttachAscents(p: seq<Vertex>, k: nat)
    requires 1 <= k < |p|
    ensures Ascents((p[..k] + p[k + 1..])[1..]) <= Ascents(p[1..])
  {
    assert p[1..] == p[1..k] + [p[k]] + p[k + 1..];
    assert (p[..k] + p[k + 1..])[1..] == p[1..k] + p[k + 1..];
    RemoveAddsNone(p[1..k], p[k], p[k + 1..]);
  }

  lemma RootOnlyFirst(nodes: seq<Vertex>, s: State)
    requires SR.Sentence(nodes) && Inv(nodes, s)
    ensures forall i :: 1 <= i < |s.pendings| ==> s.pendings[i] != ROOT
  {
    PendingOnce(nodes, s, 0);
  }

  /** Whatever offered action is chosen, it can be taken, and the invariant survives; only a move removes an ascent. */
  lemma StepKeeps(nodes: seq<Vertex>, s: State, action: Action)
    requires SR.Sentence(nodes) && Inv(nodes, s) && action in Offered(s.pendings)
    ensures Step(s, action).Some? && Inv(nodes, Step(s, action).value)
    ensures var t := Step(s, action).value;
            if action.Attach? then
              |t.pendings| + 1 == |s.pendings| && |t.arcs| == |s.arcs| + 1
              && Ascents(t.pendings[1..]) <= Ascents(s.pendings[1..])
            else
              |t.pendings| == |s.pendings| && t.arcs == s.arcs
              && Ascents(t.pendings[1..]) + 1 == Ascents(s.pendings[1..])
  {
    OfferedIff(s.pendings, action);
    var p := s.pendings;
    var i: nat :| Between(p, i, action);
    if action.Attach? {
      var fromRight := action == Attach(p[i + 1], p[i]);
      var k, t := if fromRight then i + 1 else i, if fromRight then i else i + 1;
      AttachKeeps(nodes, s, k, t);
      AttachAscents(p, k);
    } else {
      MoveKeeps(nodes, s, i);
    }
  }

  // ----- Runs.

  ghost predicate IsStep(s: State, t: State) {
    exists action :: action in Offered(s.pendings) && Step(s, action) == Some(t)
  }

  /** A sequence of states, each the result of an offered action from the one before, whatever chose it. */
  ghost predicate IsRun(nodes: seq<Vertex>, states: seq<State>) {
    && |states| > 0
    && states[0] == Initial(nodes)
    && forall k :: 0 <= k < |states| - 1 ==> IsStep(states[k], states[k + 1])
  }

  lemma SameCount(nodes: seq<Vertex>, s: State)
    requires Inv(nodes, s)
    ensures |s.pendings| + |s.arcs| == |nodes| + 1
  {
    var v := View(s);
    assert |multiset(v.stack) + multiset(v.buffer) + multiset(SR.Children(v.arcs))|
           == |v.stack| + |v.buffer| + |v.arcs|;
    assert |multiset(nodes) + multiset{ROOT}| == |nodes| + 1;
  }

  /**
   At any point of any run there have been as many attachments as there are arcs, and moves, with the ascents
   still left, for at most n(n-1)/2 actions; the root heads the pending list.
   */
  lemma {:induction false} RunPays(nodes: seq<Vertex>, states: seq<State>, k: nat)
    requires SR.Sentence(nodes) && IsRun(nodes, states) && k < |states|
    ensures Inv(nodes, states[k])
    ensures k - |states[k].arcs| + Ascents(states[k].pendings[1..]) <= Ascents(states[0].pendings[1..])
    decreases k
  {
    if k == 0 {
      InitialInv(nodes);
    } else {
      RunPays(nodes, states, k - 1);
      assert IsStep(states[k - 1], states[k]);
      var action :| action in Offered(states[k - 1].pendings) && Step(states[k - 1], action) == Some(states[k]);
      StepKeeps(nodes, states[k - 1], action);
    }
  }

  /**
   At any point of any run there have been as many attachments as there are arcs, at most one a node, and at most
   n(n-1)/2 moves besides; the root heads the pending list.
   */
  lemma RunIsShort(nodes: seq<Vertex>, states: seq<State>, k: nat)
    requires SR.Sentence(nodes) && IsRun(nodes, states) && k < |states|
    ensures states[k].pendings != [] && states[k].pendings[0] == ROOT
    ensures |states[k].arcs| + |states[k].pendings| == |nodes| + 1
    ensures 2 * (k - |states[k].arcs|) <= |nodes| * (|nodes| - 1)
  {
    RunPays(nodes, states, k);
    RunPays(nodes, states, 0);
    SameCount(nodes, states[k]);
    SameCount(nodes, states[0]);
    AscentsBound(states[0].pendings[1..]);
  }

  /** No run gets stuck: a state that is not terminal has an action to offer. */
  lemma NeverStuck(nodes: seq<Vertex>, s: State)
    requires Inv(nodes, s) && !Terminated(s)
    ensures Offered(s.pendings) != []
  {
    assert s.pendings == [ROOT] + s.pendings[1..];
  }

  // ----- The parser.

  /** Only attaching the last node to the root terminates. */
  lemma LastAttach(nodes: seq<Vertex>, s: State, action: Action) returns (v: Vertex)
    requires SR.Sentence(nodes) && Inv(nodes, s) && action in Offered(s.pendings)
    requires Step(s, action).Some? && Terminated(Step(s, action).value)
    ensures s.pendings == [ROOT, v] && v in nodes && Step(s, action).value.arcs == [Arc(ROOT, v)] + s.arcs
    ensures v !in SR.Children(s.arcs)
  {
    StepKeeps(nodes, s, action);
    OfferedIff(s.pendings, action);
    var p := s.pendings;
    var i: nat :| Between(p, i, action);
    assert |p| <= 2;
    v := p[1];
    PendingOnce(nodes, s, 1);
    assert i == 0 && p[0] == ROOT;
  }

  /** The result lacks one arc, from the root, of a spanning arborescence under the root. */
  ghost predicate ParseOf(nodes: seq<Vertex>, arcs: seq<Arc>) {
    && |arcs| == |nodes| - 1
    && DistinctChildren(arcs)
    && exists v :: v in nodes && v !in SR.Children(arcs)
                   && SpanningArborescence(VertexSet(nodes) + {ROOT}, ROOT, [Arc(ROOT, v)] + arcs)
  }

  /** `last` is what the result will be once the arc of the last node has been taken off. */
  ghost predicate LacksRootArc(nodes: seq<Vertex>, last: seq<Arc>, arcs: seq<Arc>) {
    exists v :: v in nodes && v !in SR.Children(last) && arcs == [Arc(ROOT, v)] + last
  }

  lemma TailDistinct(a: Arc, arcs: seq<Arc>)
    requires DistinctChildren([a] + arcs)
    ensures DistinctChildren(arcs)
  {
    forall i, j | 0 <= i < j < |arcs|
      ensures arcs[i].child != arcs[j].child
    {
      assert ([a] + arcs)[i + 1] == arcs[i] && ([a] + arcs)[j + 1] == arcs[j];
    }
  }

  lemma TerminalLacks(nodes: seq<Vertex>, s: State, last: seq<Arc>)
    requires SR.Sentence(nodes) && Inv(nodes, s) && Terminated(s) && LacksRootArc(nodes, last, s.arcs)
    ensures ParseOf(nodes, last)
  {
    SameCount(nodes, s);
    SR.TerminalIsArborescence(nodes, View(s));
    var v :| v in nodes && v !in SR.Children(last) && s.arcs == [Arc(ROOT, v)] + last;
    TailDistinct(Arc(ROOT, v), last);
  }

  method SelectAction(s: State, choose: (State, seq<Action>) -> Action) returns (action: Action)
    requires s.pendings != [] && !Terminated(s) && s.pendings[0] == ROOT
    requires forall i :: 1 <= i < |s.pendings| ==> s.pendings[i] != ROOT
    requires Chooses(choose)
    ensures action in Offered(s.pendings) && action == choose(s, Offered(s.pendings))
  {
    var attaches := CollectAttaches(s.pendings);
    var moves := CollectMoves(s.pendings);
    assert s.pendings == [ROOT] + s.pendings[1..];
    assert attaches != [];
    return choose(s, attaches + moves);
  }

  method Transitioned(s: State, action: Action) returns (t: State)
    requires Step(s, action).Some?
    ensures Step(s, action) == Some(t)
  {
    match action {
      case Attach(source, target) => return State(Remove(source, s.pendings), [Arc(target, source)] + s.arcs);
      case Move(left, right) => t := ConfigurationMove(s, left, right);
    }
  }

  /** A chooser takes one of the actions it is offered. */
  ghost predicate Chooses(choose: (State, seq<Action>) -> Action) {
    forall s: State, actions: seq<Action> {:trigger choose(s, actions)} :: actions != [] ==>
        choose(s, actions) in actions
  }

  /** The state after the chosen action. */
  ghost function Next(nodes: seq<Vertex>, s: State, choose: (State, seq<Action>) -> Action): (t: State)
    requires SR.Sentence(nodes) && Inv(nodes, s) && !Terminated(s) && Chooses(choose)
    ensures Inv(nodes, t) && IsStep(s, t)
    ensures |t.pendings| < |s.pendings| || (|t.pendings| == |s.pendings|
            && Ascents(t.pendings[1..]) < Ascents(s.pendings[1..]))
  {
    NeverStuck(nodes, s);
    StepKeeps(nodes, s, choose(s, Offered(s.pendings)));
    Step(s, choose(s, Offered(s.pendings))).value
  }

  /** The states that the stream yields from `s`: all but the terminal one, in order. */
  ghost function ConfigurationStream(nodes: seq<Vertex>, s: State,
                                     choose: (State, seq<Action>) -> Action): (states: seq<State>)
    requires SR.Sentence(nodes) && Inv(nodes, s) && Chooses(choose)
    ensures states == [] <==> Terminated(s)
    decreases |s.pendings|, Ascents(s.pendings[1..])
  {
    if Terminated(s) then [] else [s] + ConfigurationStream(nodes, Next(nodes, s, choose), choose)
  }

  lemma PendingDistinct(nodes: seq<Vertex>, s: State)
    requires SR.Sentence(nodes) && Inv(nodes, s)
    ensures Distinct(s.pendings)
  {
    forall i, j | 0 <= i < j < |s.pendings|
      ensures s.pendings[i] != s.pendings[j]
    {
      PendingOnce(nodes, s, j);
    }
  }

  /** The action chosen among those offered in `s`, in their order, leads to `t`. */
  ghost predicate ChosenStep(s: State, choose: (State, seq<Action>) -> Action, t: State) {
    exists actions :: OffersInOrder(s.pendings, actions) && Step(s, choose(s, actions)) == Some(t)
  }

  /** The states from `s` to a terminal one, each the result of the action chosen in the one before. */
  ghost predicate ChosenRun(s: State, choose: (State, seq<Action>) -> Action, states: seq<State>) {
    && states != [] && states[0] == s && Terminated(states[|states| - 1])
    && forall k :: 0 <= k < |states| - 1 ==> !Terminated(states[k]) && ChosenStep(states[k], choose, states[k + 1])
  }

  lemma NextIsChosen(nodes: seq<Vertex>, s: State, choose: (State, seq<Action>) -> Action)
    requires SR.Sentence(nodes) && Inv(nodes, s) && !Terminated(s) && Chooses(choose)
    ensures ChosenStep(s, choose, Next(nodes, s, choose))
  {
    PendingDistinct(nodes, s);
    OfferedOrder(s.pendings);
    NeverStuck(nodes, s);
    StepKeeps(nodes, s, choose(s, Offered(s.pendings)));
  }

  lemma RunInFront(s: State, choose: (State, seq<Action>) -> Action, next: State, states: seq<State>)
    requires !Terminated(s) && ChosenStep(s, choose, next) && ChosenRun(next, choose, states)
    ensures ChosenRun(s, choose, [s] + states)
  {
    var all := [s] + states;
    forall k | 0 <= k < |all| - 1
      ensures !Terminated(all[k]) && ChosenStep(all[k], choose, all[k + 1])
    {
      assert all[k + 1] == states[k];
      if k > 0 {
        assert all[k] == states[k - 1];
      }
    }
  }

  /** The stream is all but the last state of the run of chosen actions to the terminal state. */
  lemma {:induction false} StreamEnds(nodes: seq<Vertex>, s: State, choose: (State, seq<Action>) -> Action)
    returns (states: seq<State>)
    requires SR.Sentence(nodes) && Inv(nodes, s) && Chooses(choose)
    ensures ChosenRun(s, choose, states)
    ensures ConfigurationStream(nodes, s, choose) == states[..|states| - 1]
    decreases |s.pendings|, Ascents(s.pendings[1..])
  {
    if Terminated(s) {
      states := [s];
    } else {
      var next := Next(nodes, s, choose);
      NextIsChosen(nodes, s, choose);
      var rest := StreamEnds(nodes, next, choose);
      RunInFront(s, choose, next, rest);
      states := [s] + rest;
      ButLast(s, rest);
    }
  }

  lemma ButLast(s: State, rest: seq<State>)
    requires rest != []
    ensures ([s] + rest)[..|[s] + rest| - 1] == [s] + rest[..|rest| - 1]
  {
  }

  /** One turn of the stream: `moved` is 1 for a move and 0 for an attachment. */
  method Advance(nodes: seq<Vertex>, config: State, choose: (State, seq<Action>) -> Action)
    returns (next: State, ghost moved: nat)
    requires SR.Sentence(nodes) && Inv(nodes, config) && !Terminated(config) && Chooses(choose)
    ensures next == Next(nodes, config, choose)
    ensures |next.arcs| + moved == |config.arcs| + 1
    ensures moved + Ascents(next.pendings[1..]) <= Ascents(config.pendings[1..])
    ensures Terminated(next) ==> LacksRootArc(nodes, config.arcs, next.arcs)
  {
    RootOnlyFirst(nodes, config);
    var action := SelectAction(config, choose);
    StepKeeps(nodes, config, action);
    if Terminated(Step(config, action).value) {
      ghost var v := LastAttach(nodes, config, action);
    }
    moved := if action.Move? then 1 else 0;
    next := Transitioned(config, action);
  }

  /** Takes the chosen action until only the root is pending; `last` are the arcs of the last state before that. */
  method Run(nodes: seq<Vertex>, choose: (State, seq<Action>) -> Action)
    returns (last: seq<Arc>, ghost moves: nat, ghost states: seq<State>)
    requires SR.Sentence(nodes) && nodes != [] && Chooses(choose)
    ensures Inv(nodes, Initial(nodes)) && states == ConfigurationStream(nodes, Initial(nodes), choose)
    ensures states != [] && last == states[|states| - 1].arcs && ParseOf(nodes, last)
    ensures |states| == |nodes| + moves && moves <= Ascents(Initial(nodes).pendings[1..])
  {
    InitialInv(nodes);
    SameCount(nodes, Initial(nodes));
    states := [];
    var config := Initial(nodes);
    last, moves := config.arcs, 0;
    while !Terminated(config)
      invariant Inv(nodes, config)
      invariant states + ConfigurationStream(nodes, config, choose)
                == ConfigurationStream(nodes, Initial(nodes), choose)
      invariant |states| == |config.arcs| + moves
      invariant moves + Ascents(config.pendings[1..]) <= Ascents(Initial(nodes).pendings[1..])
      invariant states != [] ==> last == states[|states| - 1].arcs
      invariant Terminated(config) ==> LacksRootArc(nodes, last, config.arcs)
      decreases |config.pendings|, Ascents(config.pendings[1..])
    {
      last := config.arcs;
      ghost var moved;
      var next;
      next, moved := Advance(nodes, config, choose);
      StreamStep(states, config, ConfigurationStream(nodes, next, choose));
      states, moves, config := states + [config], moves + moved, next;
    }
    assert states + [] == states;
    TerminalLacks(nodes, config, last);
    SameCount(nodes, config);
  }

  lemma StreamStep(seen: seq<State>, s: State, rest: seq<State>)
    ensures seen + ([s] + rest) == seen + [s] + rest
    ensures |seen + [s]| == |seen| + 1 && (seen + [s])[|seen + [s]| - 1] == s
  {
  }

  /** The arcs are those of the last state but one of the run of chosen actions. */
  ghost predicate ResultOf(nodes: seq<Vertex>, choose: (State, seq<Action>) -> Action, arcs: seq<Arc>) {
    exists states: seq<State> ::
      ChosenRun(Initial(nodes), choose, states) && |states| >= 2 && arcs == states[|states| - 2].arcs
  }

  lemma RunGives(nodes: seq<Vertex>, choose: (State, seq<Action>) -> Action, stream: seq<State>, arcs: seq<Arc>)
    requires SR.Sentence(nodes) && Inv(nodes, Initial(nodes)) && Chooses(choose)
    requires stream == ConfigurationStream(nodes, Initial(nodes), choose)
    requires stream != [] && arcs == stream[|stream| - 1].arcs
    ensures ResultOf(nodes, choose, arcs)
  {
    var states := StreamEnds(nodes, Initial(nodes), choose);
    LastOfStream(states, stream);
    RunIsResult(nodes, choose, states);
  }

  lemma LastOfStream(states: seq<State>, stream: seq<State>)
    requires states != [] && stream == states[..|states| - 1] && stream != []
    ensures |states| >= 2 && stream[|stream| - 1] == states[|states| - 2]
  {
  }

  lemma RunIsResult(nodes: seq<Vertex>, choose: (State, seq<Action>) -> Action, states: seq<State>)
    requires ChosenRun(Initial(nodes), choose, states) && |states| >= 2
    ensures ResultOf(nodes, choose, states[|states| - 2].arcs)
  {
  }

  /** What is reported for distinct nodes, and the states on the way to it. */
  ghost predicate Reported(nodes: seq<Vertex>, choose: (State, seq<Action>) -> Action, moves: nat,
                           states: seq<State>, arcs: seq<Arc>)
    requires Chooses(choose)
  {
    && SR.Sentence(nodes) && Inv(nodes, Initial(nodes))
    && states == ConfigurationStream(nodes, Initial(nodes), choose)
    && states != [] && arcs == states[|states| - 1].arcs
    && ResultOf(nodes, choose, arcs) && ParseOf(nodes, arcs)
    && |states| == |nodes| + moves && 2 * moves <= |nodes| * (|nodes| - 1)
  }

  /**
   The arcs of the last state before only the root is pending; `None` for a negative node, or for no node at all.
   The states are as many as the nodes and the moves together.
   */
  method Parse(nodes: seq<int>, choose: (State, seq<Action>) -> Action)
    returns (result: Option<seq<Arc>>, ghost moves: nat, ghost states: seq<State>)
    requires forall i, j :: 0 <= i < j < |nodes| ==> nodes[i] != nodes[j]
    requires Chooses(choose)
    ensures result.Some? <==> nodes != [] && !SR.SomeNegative(nodes)
    ensures result.Some? ==> Reported(nodes, choose, moves, states, result.value)
  {
    if SR.SomeNegative(nodes) || nodes == [] {
      return None, 0, [];
    }
    var last;
    last, moves, states := Run(nodes, choose);
    RunReports(nodes, choose, moves, states, last);
    return Some(last), moves, states;
  }

  lemma RunReports(nodes: seq<Vertex>, choose: (State, seq<Action>) -> Action, moves: nat, states: seq<State>,
                   last: seq<Arc>)
    requires SR.Sentence(nodes) && nodes != [] && Chooses(choose)
    requires Inv(nodes, Initial(nodes)) && states == ConfigurationStream(nodes, Initial(nodes), choose)
    requires states != [] && last == states[|states| - 1].arcs && ParseOf(nodes, last)
    requires |states| == |nodes| + moves && moves <= Ascents(Initial(nodes).pendings[1..])
    ensures Reported(nodes, choose, moves, states, last)
  {
    MovesBound(nodes, moves);
    RunGives(nodes, choose, states, last);
  }

  lemma MovesBound(nodes: seq<Vertex>, moves: nat)
    requires moves <= Ascents(Initial(nodes).pendings[1..])
    ensures 2 * moves <= |nodes| * (|nodes| - 1)
  {
    InitialInv(nodes);
    SameCount(nodes, Initial(nodes));
    AscentsBound(Initial(nodes).pendings[1..]);
  }
}
