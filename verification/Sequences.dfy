/** Concatenation, as the proofs regroup it, and what is left of a list when some of its items are dropped. */
module Sequences {
  lemma Associate<T>(a: seq<T>, b: seq<T>, c: seq<T>)
    ensures a + (b + c) == a + b + c
    ensures a + [] == a && [] + a == a
  {
  }

  /** The items of `s` stand in `t` at the places `at`, which ascend. */
  ghost predicate StandsAt<T>(s: seq<T>, t: seq<T>, at: seq<nat>) {
    && |at| == |s|
    && (forall k :: 0 <= k < |s| ==> at[k] < |t| && t[at[k]] == s[k])
    && forall i, j :: 0 <= i < j < |at| ==> at[i] < at[j]
  }

  ghost predicate Subsequence<T>(s: seq<T>, t: seq<T>) {
    exists at :: StandsAt(s, t, at)
  }

  /** `s` are the items of `t` that meet `keep`, as often as they stand there, and in the same order. */
  ghost predicate Kept<T(!new)>(s: seq<T>, t: seq<T>, keep: T -> bool) {
    Subsequence(s, t) && forall x :: multiset(s)[x] == if keep(x) then multiset(t)[x] else 0
  }

  lemma KeptNone<T(!new)>(keep: T -> bool)
    ensures Kept([], [], keep)
  {
    assert StandsAt<T>([], [], []);
  }

  lemma SubsequenceTake<T>(x: T, s: seq<T>, t: seq<T>)
    requires Subsequence(s, t)
    ensures Subsequence([x] + s, [x] + t) && Subsequence(s, [x] + t)
  {
    var at :| StandsAt(s, t, at);
    var later := seq(|at|, k requires 0 <= k < |at| => at[k] + 1);
    assert StandsAt(s, [x] + t, later);
    assert StandsAt([x] + s, [x] + t, [0] + later);
  }

  lemma KeptTake<T(!new)>(x: T, s: seq<T>, t: seq<T>, keep: T -> bool)
    requires Kept(s, t, keep)
    ensures Kept((if keep(x) then [x] else []) + s, [x] + t, keep)
  {
    SubsequenceTake(x, s, t);
    assert [] + s == s;
  }

  lemma KeptMember<T(!new)>(s: seq<T>, t: seq<T>, keep: T -> bool, x: T)
    requires Kept(s, t, keep)
    ensures x in s <==> x in t && keep(x)
  {
    assert x in s <==> x in multiset(s);
    assert x in t <==> x in multiset(t);
  }

  ghost predicate Ordered<T>(s: seq<T>, less: (T, T) -> bool) {
    forall i, j :: 0 <= i < j < |s| ==> less(s[i], s[j])
  }

  /** `less` never holds both ways between items of `s`, nor between an item and itself. */
  ghost predicate Asymmetric<T>(s: seq<T>, less: (T, T) -> bool) {
    forall x, y :: x in s && y in s && less(x, y) ==> !less(y, x)
  }

  lemma RestSame<T(!new)>(s: seq<T>, t: seq<T>, less: (T, T) -> bool)
    requires Ordered(s, less) && Ordered(t, less) && Asymmetric(s, less) && s != [] && t != [] && s[0] == t[0]
    requires forall x :: x in s <==> x in t
    ensures forall x :: x in s[1..] <==> x in t[1..]
    ensures s == [s[0]] + s[1..] && t == [t[0]] + t[1..]
  {
    assert s[0] !in s[1..] && s[0] !in t[1..];
    assert s == [s[0]] + s[1..] && t == [t[0]] + t[1..];
  }

  /** An order leaves one way to list given items. */
  lemma {:induction false} SameOrder<T(!new)>(s: seq<T>, t: seq<T>, less: (T, T) -> bool)
    requires Ordered(s, less) && Ordered(t, less) && Asymmetric(s, less)
    requires forall x :: x in s <==> x in t
    ensures s == t
  {
    assert t != [] ==> t[0] in t;
    if s != [] {
      assert s[0] in s && s[0] in t;
      assert t[0] in t && t[0] in s;
      assert s[0] == t[0];
      RestSame(s, t, less);
      SameOrder(s[1..], t[1..], less);
    }
  }
}
