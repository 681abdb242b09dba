/**
 * The shared `seen` set behaves as the path of enclosing containers: where no exception leaves a map, set
 * or array, every call restores it, and each value is rendered independently of its siblings.
 */
module SanitizerPaths {
  import opened Wrappers
  import opened SanitizerModel

  predicate IsList(b: Body) { b.MapBody? || b.SetBody? || b.ArrayBody? }

  /**
   * What throws by itself: a map key without a text, an invalid date, an object whose class name cannot be
   * looked up or, at the depth limit, written down, and an error whose causes lead to one of these.
   */
  predicate Throwing(h: Heap, opts: Options, c: Child, depth: nat)
    requires WellFormed(h) && ValidRef(h, c.value)
    decreases CauseRank(h, RankOf(h), c.value)
  {
    || c.key.Unreadable?
    || (&& !Redacts(opts, c.key)
        && c.value.Ref?
        && var b := h[c.value.node].body;
           assert Ranks(h, RankOf(h));
           || (b.DateBody? && b.iso.None?)
           || (HasCause(b) && Throwing(h, opts, Child(Keyed("cause"), b.cause.value), depth + 1))
           || (b.ObjectBody? && !IsLeaf(h, c.value.node) && !NamesItself(h, opts, b, depth)))
  }

  predicate NamesItself(h: Heap, opts: Options, b: Body, depth: nat) {
    Opens(h, b) && (TooDeep(opts, depth) ==> DepthOutcome(h, b).Done?)
  }

  /** No map, set or array, wherever it can be entered, holds a value that throws. */
  ghost predicate Calm(h: Heap, opts: Options)
    requires WellFormed(h)
  {
    forall n, depth: nat | 0 <= n < |h| :: !LeaksAt(h, opts, n, depth)
  }

  /** A list that, entered at this depth, holds a value that throws. */
  ghost predicate LeaksAt(h: Heap, opts: Options, n: nat, depth: nat)
    requires WellFormed(h) && n < |h|
  {
    assert Ranks(h, RankOf(h));
    IsList(h[n].body) && !TooDeep(opts, depth) && !NoneThrows(h, opts, Children(h, opts, n), depth + 1)
  }

  predicate NoneThrows(h: Heap, opts: Options, cs: seq<Child>, depth: nat)
    requires WellFormed(h) && forall i | 0 <= i < |cs| :: ValidRef(h, cs[i].value)
  {
    forall i | 0 <= i < |cs| :: !Throwing(h, opts, cs[i], depth)
  }

  // The reference rendering: each value is judged by the containers it lies in.

  function Tree(h: Heap, opts: Options, c: Child, depth: nat, path: set<nat>): Outcome
    requires WellFormed(h) && ValidRef(h, c.value)
    decreases Budget(h, opts, depth, path), 0, CauseRank(h, RankOf(h), c.value)
  {
    if c.key.Unreadable? then Thrown(TEXT_ERROR)
    else if Redacts(opts, c.key) then Done(ORedacted)
    else if !c.value.Ref? then Done(PrimitiveOut(opts, c.value))
    else if IsLeaf(h, c.value.node) then LeafOutcome(h, opts, c.value.node)
    else
      var n, b := c.value.node, h[c.value.node].body;
      assert Ranks(h, RankOf(h));
      if b.ErrorBody? then
        BudgetFalls(h, opts, depth, path, path);
        var inner := Tree(h, opts, Child(Keyed("cause"), b.cause.value), depth + 1, path);
        if inner.Thrown? then inner else Done(Assemble(h, opts, b, [inner.out]))
      else if n in path then Done(Refused(b, OCircular))
      else if !Opens(h, b) then Thrown(CLASS_ERROR)
      else if TooDeep(opts, depth) then DepthOutcome(h, b)
      else
        BudgetFallsInside(h, opts, depth, path, n);
        Done(Assemble(h, opts, b, Trees(h, opts, Children(h, opts, n), depth + 1, path + {n})))
  }

  function Trees(h: Heap, opts: Options, cs: seq<Child>, depth: nat, path: set<nat>): (outs: seq<Out>)
    requires WellFormed(h) && forall i | 0 <= i < |cs| :: ValidRef(h, cs[i].value)
    ensures |outs| == |cs|
    ensures forall i | 0 <= i < |cs| :: outs[i] == Caught(Tree(h, opts, cs[i], depth, path))
    decreases Budget(h, opts, depth, path), 1, |cs|
  {
    if cs == [] then []
    else Trees(h, opts, cs[..|cs| - 1], depth, path) + [Caught(Tree(h, opts, cs[|cs| - 1], depth, path))]
  }

  // Ways down the graph.

  /** A value the sanitizer goes into: neither redacted, primitive nor rendered on the spot. */
  predicate Enters(h: Heap, opts: Options, c: Child) {
    !c.key.Unreadable? && !Redacts(opts, c.key) && c.value.Ref? && c.value.node < |h| && !IsLeaf(h, c.value.node)
  }

  predicate EntersContainer(h: Heap, opts: Options, c: Child) {
    Enters(h, opts, c) && IsContainer(h, c.value.node)
  }

  /** An error's cause is always visited; a container's children if it opens and is not too deep. */
  predicate Admits(h: Heap, opts: Options, n: nat, depth: nat)
    requires n < |h|
  {
    IsContainer(h, n) ==> Opens(h, h[n].body) && !TooDeep(opts, depth)
  }

  /** From one visited value to a value visited inside it, `depth` levels down. */
  ghost predicate Descends(h: Heap, opts: Options, from: Child, to: Child, depth: nat)
    requires WellFormed(h)
  {
    assert Ranks(h, RankOf(h));
    && Enters(h, opts, from) && Enters(h, opts, to)
    && Admits(h, opts, from.value.node, depth)
    && to in Children(h, opts, from.value.node)
  }

  /** A way down, each value inside the one before. */
  ghost predicate Walk(h: Heap, opts: Options, walk: seq<Child>, depth: nat)
    requires WellFormed(h)
  {
    && |walk| > 0
    && Enters(h, opts, walk[|walk| - 1])
    && (forall i | 0 <= i < |walk| - 1 :: Descends(h, opts, walk[i], walk[i + 1], depth + i))
  }

  lemma WalkEnters(h: Heap, opts: Options, walk: seq<Child>, depth: nat)
    requires WellFormed(h) && Walk(h, opts, walk, depth)
    ensures Enters(h, opts, walk[0])
  {
    if |walk| > 1 { assert Descends(h, opts, walk[0], walk[1], depth + 0); }
  }

  /** Going on from the end of a walk; `down` may name its start by another key. */
  lemma JoinWalks(h: Heap, opts: Options, walk: seq<Child>, down: seq<Child>, depth: nat)
    requires WellFormed(h) && Walk(h, opts, walk, depth) && Walk(h, opts, down, depth + |walk| - 1)
    requires down[0].value == walk[|walk| - 1].value
    ensures Walk(h, opts, walk + down[1..], depth)
  {
    hide Children, IsSensitiveKey, IsLeaf, Admits;
    var all := walk + down[1..];
    var last := |walk| - 1;
    forall i | 0 <= i < |all| - 1
      ensures Descends(h, opts, all[i], all[i + 1], depth + i)
    {
      if i >= last {
        assert Descends(h, opts, down[i - last], down[i - last + 1], depth + last + (i - last));
        assert all[i].value == down[i - last].value && all[i + 1] == down[i - last + 1];
      }
    }
  }

  lemma Step(h: Heap, opts: Options, from: Child, to: Child, depth: nat)
    requires WellFormed(h) && Descends(h, opts, from, to, depth)
    ensures Walk(h, opts, [from, to], depth)
  {
    hide Descends, Enters;
    var walk := [from, to];
    DescendsEnters(h, opts, from, to, depth);
    assert Descends(h, opts, walk[0], walk[1], depth + 0);
  }

  lemma DescendsEnters(h: Heap, opts: Options, from: Child, to: Child, depth: nat)
    requires WellFormed(h) && Descends(h, opts, from, to, depth)
    ensures Enters(h, opts, from) && Enters(h, opts, to)
  {
  }

  /** A list the sanitizer goes into holds nothing that throws. */
  ghost predicate CalmAt(h: Heap, opts: Options, c: Child, depth: nat)
    requires WellFormed(h) && Enters(h, opts, c)
  {
    !LeaksAt(h, opts, c.value.node, depth)
  }

  /** No list that is reached from c holds a value that throws. */
  ghost predicate CalmFrom(h: Heap, opts: Options, c: Child, depth: nat)
    requires WellFormed(h)
  {
    forall walk | Walk(h, opts, walk, depth) && walk[0] == c :: CalmAt(h, opts, walk[|walk| - 1], depth + |walk| - 1)
  }

  lemma CalmHere(h: Heap, opts: Options, c: Child, depth: nat)
    requires WellFormed(h) && CalmFrom(h, opts, c, depth) && Enters(h, opts, c)
    ensures CalmAt(h, opts, c, depth)
  {
    hide Enters, CalmAt;
    assert Walk(h, opts, [c], depth);
    assert CalmAt(h, opts, [c][|[c]| - 1], depth + |[c]| - 1);
  }

  lemma CalmBelow(h: Heap, opts: Options, c: Child, below: Child, depth: nat)
    requires WellFormed(h) && CalmFrom(h, opts, c, depth) && Enters(h, opts, c) && Ranks(h, RankOf(h))
    requires below in Children(h, opts, c.value.node) && Admits(h, opts, c.value.node, depth)
    ensures CalmFrom(h, opts, below, depth + 1)
  {
    forall walk | Walk(h, opts, walk, depth + 1) && walk[0] == below
      ensures CalmAt(h, opts, walk[|walk| - 1], depth + 1 + |walk| - 1)
    {
      WalkEnters(h, opts, walk, depth + 1);
      assert Descends(h, opts, c, below, depth);
      CalmAlong(h, opts, c, walk, depth);
    }
  }

  lemma CalmAlong(h: Heap, opts: Options, c: Child, walk: seq<Child>, depth: nat)
    requires WellFormed(h) && CalmFrom(h, opts, c, depth)
    requires Walk(h, opts, walk, depth + 1) && Descends(h, opts, c, walk[0], depth)
    ensures CalmAt(h, opts, walk[|walk| - 1], depth + 1 + |walk| - 1)
  {
    hide Descends, Enters, CalmAt;
    Step(h, opts, c, walk[0], depth);
    JoinWalks(h, opts, [c, walk[0]], walk, depth);
    var all := [c, walk[0]] + walk[1..];
    assert all[|all| - 1] == walk[|walk| - 1];
    assert CalmAt(h, opts, all[|all| - 1], depth + |all| - 1);
  }

  lemma CalmGraphsAreCalmFrom(h: Heap, opts: Options, c: Child, depth: nat)
    requires WellFormed(h) && Calm(h, opts)
    ensures CalmFrom(h, opts, c, depth)
  {
    hide Children, IsSensitiveKey, IsLeaf, TooDeep, LeaksAt, Descends;
  }

  // Where every list that is reached is calm, the shared set is the path.

  lemma {:induction false} RunIsTree(h: Heap, opts: Options, c: Child, depth: nat, seen: set<nat>)
    requires WellFormed(h) && ValidRef(h, c.value) && CalmFrom(h, opts, c, depth)
    ensures Run(h, opts, c, depth, seen) == (Tree(h, opts, c, depth, seen), seen)
    ensures Tree(h, opts, c, depth, seen).Thrown? ==> Throwing(h, opts, c, depth)
    decreases Budget(h, opts, depth, seen), 0, CauseRank(h, RankOf(h), c.value)
  {
    hide Assemble, LeafOutcome, Children, PrimitiveOut, IsSensitiveKey, Budget, Refused, CalmFrom, ClassOf;
    if !c.key.Unreadable? && !Redacts(opts, c.key) && c.value.Ref? {
      var n := c.value.node;
      var b := h[n].body;
      assert Ranks(h, RankOf(h));
      if IsLeaf(h, n) {
        LeafThrows(h, opts, n);
      } else if b.ErrorBody? {
        BudgetFalls(h, opts, depth, seen, seen);
        var cause := Child(Keyed("cause"), b.cause.value);
        CauseIsChild(h, opts, n);
        CalmBelow(h, opts, c, cause, depth);
        RunIsTree(h, opts, cause, depth + 1, seen);
      } else if TooDeep(opts, depth) {
        ListsNameThemselves(h, b);
      } else if n !in seen && Opens(h, b) {
        BudgetFallsInside(h, opts, depth, seen, n);
        CalmHere(h, opts, c, depth);
        var cs := Children(h, opts, n);
        forall i | 0 <= i < |cs| ensures CalmFrom(h, opts, cs[i], depth + 1) {
          CalmBelow(h, opts, c, cs[i], depth);
        }
        RunAllIsTrees(h, opts, cs, depth + 1, seen + {n}, b.ObjectBody?);
        assert seen + {n} - {n} == seen;
      }
    }
  }

  lemma ListsNameThemselves(h: Heap, b: Body)
    ensures DepthOutcome(h, b).Thrown? ==> b.ObjectBody?
  {
  }

  lemma CauseIsChild(h: Heap, opts: Options, n: nat)
    requires n < |h| && Closed(h, h[n].body) && HasCause(h[n].body)
    ensures !IsLeaf(h, n) && Children(h, opts, n) == [Child(Keyed("cause"), h[n].body.cause.value)]
  {
  }

  lemma LeafThrows(h: Heap, opts: Options, n: nat)
    requires n < |h| && IsLeaf(h, n)
    ensures LeafOutcome(h, opts, n).Thrown? <==> h[n].body.DateBody? && h[n].body.iso.None?
    ensures !HasCause(h[n].body)
  {
  }

  lemma {:induction false} RunAllIsTrees(h: Heap, opts: Options, cs: seq<Child>, depth: nat, seen: set<nat>,
      catching: bool)
    requires WellFormed(h)
    requires forall i | 0 <= i < |cs| :: ValidRef(h, cs[i].value) && CalmFrom(h, opts, cs[i], depth)
    requires catching || NoneThrows(h, opts, cs, depth)
    ensures RunAll(h, opts, cs, depth, seen, catching) == (AllDone(Trees(h, opts, cs, depth, seen)), seen)
    decreases Budget(h, opts, depth, seen), 1, |cs|
  {
    hide Budget, CalmFrom, Throwing, Run, Tree;
    if |cs| > 0 {
      RunAllIsTrees(h, opts, cs[..|cs| - 1], depth, seen, catching);
      RunIsTree(h, opts, cs[|cs| - 1], depth, seen);
    }
  }

  // When `seen` is restored.

  ghost predicate Restores(h: Heap, opts: Options)
    requires WellFormed(h)
  {
    forall c: Child, depth: nat, seen: set<nat> | ValidRef(h, c.value) :: Run(h, opts, c, depth, seen).1 == seen
  }

  /** An exception leaves lists behind in `seen`, never objects. */
  ghost predicate OnlyListsMore(h: Heap, seen: set<nat>, after: set<nat>) {
    forall n | n in after && n !in seen :: n < |h| && IsList(h[n].body)
  }

  lemma {:induction false} RunLeavesLists(h: Heap, opts: Options, c: Child, depth: nat, seen: set<nat>)
    requires WellFormed(h) && ValidRef(h, c.value)
    ensures OnlyListsMore(h, seen, Run(h, opts, c, depth, seen).1)
    decreases Budget(h, opts, depth, seen), 0, CauseRank(h, RankOf(h), c.value)
  {
    hide Assemble, LeafOutcome, Children, PrimitiveOut, IsSensitiveKey, Budget, DepthOutcome, ClassOf, KeyText;
    if !c.key.Unreadable? && !Redacts(opts, c.key) && c.value.Ref? && !IsLeaf(h, c.value.node) {
      var n := c.value.node;
      var b := h[n].body;
      assert Ranks(h, RankOf(h));
      if b.ErrorBody? {
        BudgetFalls(h, opts, depth, seen, seen);
        RunLeavesLists(h, opts, Child(Keyed("cause"), b.cause.value), depth + 1, seen);
      } else if n !in seen && Opens(h, b) && !TooDeep(opts, depth) {
        BudgetFallsInside(h, opts, depth, seen, n);
        RunAllLeavesLists(h, opts, Children(h, opts, n), depth + 1, seen + {n}, b.ObjectBody?);
      }
    }
  }

  lemma {:induction false} RunAllLeavesLists(
    h: Heap, opts: Options, cs: seq<Child>, depth: nat, seen: set<nat>, catching: bool)
    requires WellFormed(h) && forall i | 0 <= i < |cs| :: ValidRef(h, cs[i].value)
    ensures OnlyListsMore(h, seen, RunAll(h, opts, cs, depth, seen, catching).1)
    decreases Budget(h, opts, depth, seen), 1, |cs|
  {
    hide Budget, Run;
    if |cs| > 0 {
      RunAllLeavesLists(h, opts, cs[..|cs| - 1], depth, seen, catching);
      var mid := RunAll(h, opts, cs[..|cs| - 1], depth, seen, catching).1;
      BudgetFalls(h, opts, depth, seen, mid);
      RunLeavesLists(h, opts, cs[|cs| - 1], depth, mid);
    }
  }

  lemma {:induction false} ThrowingThrows(h: Heap, opts: Options, c: Child, depth: nat, seen: set<nat>)
    requires WellFormed(h) && ValidRef(h, c.value) && Throwing(h, opts, c, depth) && OnlyListsMore(h, {}, seen)
    ensures Run(h, opts, c, depth, seen).0.Thrown?
    decreases CauseRank(h, RankOf(h), c.value)
  {
    hide Assemble, Children, IsSensitiveKey, Budget, ClassOf;
    assert Ranks(h, RankOf(h));
    if !c.key.Unreadable? && HasCause(h[c.value.node].body) {
      ThrowingThrows(h, opts, Child(Keyed("cause"), h[c.value.node].body.cause.value), depth + 1, seen);
    }
  }

  lemma {:induction false} ListOfThrowingThrows(h: Heap, opts: Options, cs: seq<Child>, depth: nat, seen: set<nat>)
    requires WellFormed(h) && forall i | 0 <= i < |cs| :: ValidRef(h, cs[i].value)
    requires !NoneThrows(h, opts, cs, depth) && OnlyListsMore(h, {}, seen)
    ensures RunAll(h, opts, cs, depth, seen, false).0.ListThrown?
    decreases |cs|
  {
    hide Budget, Run, Throwing;
    var before, last := cs[..|cs| - 1], cs[|cs| - 1];
    if NoneThrows(h, opts, before, depth) {
      var i :| 0 <= i < |cs| && Throwing(h, opts, cs[i], depth);
      assert i == |cs| - 1;
      var mid := RunAll(h, opts, before, depth, seen, false).1;
      RunAllLeavesLists(h, opts, before, depth, seen, false);
      ThrowingThrows(h, opts, last, depth, mid);
    } else {
      ListOfThrowingThrows(h, opts, before, depth, seen);
    }
  }

  /** A leaking list throws and stays in `seen`. */
  lemma LeakLeaves(h: Heap, opts: Options, n: nat, depth: nat)
    requires WellFormed(h) && n < |h| && LeaksAt(h, opts, n, depth)
    ensures EntersContainer(h, opts, Child(Unkeyed, Ref(n)))
    ensures var (r, after) := Run(h, opts, Child(Unkeyed, Ref(n)), depth, {}); r.Thrown? && n in after
  {
    hide Children, Budget, NoneThrows, RunAll;
    assert Ranks(h, RankOf(h));
    ListOfThrowingThrows(h, opts, Children(h, opts, n), depth + 1, {} + {n});
    assert n in RunAll(h, opts, Children(h, opts, n), depth + 1, {} + {n}, false).1;
  }

  /** `seen` is restored by every call exactly when no map, set or array holds a throwing value. */
  lemma {:induction false} SeenIsRestoredIffCalm(h: Heap, opts: Options)
    requires WellFormed(h)
    ensures Restores(h, opts) <==> Calm(h, opts)
  {
    hide Run, LeaksAt;
    if Calm(h, opts) {
      forall c: Child, depth: nat, seen: set<nat> | ValidRef(h, c.value)
        ensures Run(h, opts, c, depth, seen).1 == seen
      {
        CalmGraphsAreCalmFrom(h, opts, c, depth);
        RunIsTree(h, opts, c, depth, seen);
      }
    } else {
      var n, depth: nat :| 0 <= n < |h| && LeaksAt(h, opts, n, depth);
      LeakLeaves(h, opts, n, depth);
      assert ValidRef(h, Child(Unkeyed, Ref(n)).value);
    }
  }
}
