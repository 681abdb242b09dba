/**
 * [Circular] stands exactly where a container lies inside itself, as long as no exception leaves a map, set
 * or array. A value in a list that throws breaks this, such as an invalid date; the exact condition is proved.
 */
module SanitizerCycles {
  import opened Wrappers
  import opened SanitizerModel
  import opened SanitizerPaths

  // Where [Circular] stands.

  ghost predicate HasCircular(o: Out) {
    match o
    case OCircular => true
    case OSeq(items) => exists i | 0 <= i < |items| :: HasCircular(items[i])
    case ORecord(fields) => exists k | k in fields :: HasCircular(fields[k])
    case _ => false
  }

  ghost predicate AnyCircular(outs: seq<Out>) { exists i | 0 <= i < |outs| :: HasCircular(outs[i]) }

  /** A way down to a container that lies inside itself or inside one of `path`. */
  ghost predicate ClosesCycle(h: Heap, opts: Options, walk: seq<Child>, depth: nat, path: set<nat>)
    requires WellFormed(h)
  {
    && Walk(h, opts, walk, depth)
    && EntersContainer(h, opts, walk[|walk| - 1])
    && Returns(walk, path)
  }

  ghost predicate Returns(walk: seq<Child>, path: set<nat>)
    requires |walk| > 0
  {
    var last := walk[|walk| - 1].value;
    (last.Ref? && last.node in path) || exists i | 0 <= i < |walk| - 1 :: walk[i].value == last
  }

  predicate DistinctKeys(fields: seq<(string, Value)>) {
    forall i, j | 0 <= i < j < |fields| :: fields[i].0 != fields[j].0
  }

  /** No object repeats a key, and none that is cut short shows a field named as the truncation count. */
  predicate OrdinaryKeys(h: Heap, opts: Options) { forall n | 0 <= n < |h| :: OrdinaryFields(opts, h[n].body) }

  predicate OrdinaryFields(opts: Options, b: Body) {
    b.ObjectBody? ==>
      && DistinctKeys(b.fields)
      && (opts.sanitizeValues && |b.fields| > MAX_OBJECT_KEYS ==>
            forall i | 0 <= i < MAX_OBJECT_KEYS :: b.fields[i].0 != "__truncatedKeys")
  }

  lemma PlainFieldsHaveNoCircular(opts: Options, e: Body)
    requires e.ErrorBody?
    ensures !HasCircular(ORecord(ErrorFields(opts, e)))
  {
    hide TruncateString;
    var f := ErrorFields(opts, e);
    assert forall k | k in f :: f[k].OText?;
  }

  lemma LeavesHaveNoCircular(h: Heap, opts: Options, n: nat)
    requires n < |h| && IsLeaf(h, n) && LeafOutcome(h, opts, n).Done?
    ensures !HasCircular(LeafOutcome(h, opts, n).out)
  {
    if h[n].body.ErrorBody? { PlainFieldsHaveNoCircular(opts, h[n].body); }
  }

  lemma MarkerHasNoCircular(opts: Options, outs: seq<Out>, originalLength: nat)
    ensures AnyCircular(WithMarker(opts, outs, originalLength)) <==> AnyCircular(outs)
  {
    var all := WithMarker(opts, outs, originalLength);
    forall n: nat ensures !HasCircular(OmittedItems(n)) {
      assert forall k | k in OmittedItems(n).fields :: !HasCircular(OmittedItems(n).fields[k]);
    }
    if AnyCircular(outs) {
      var i :| 0 <= i < |outs| && HasCircular(outs[i]);
      assert all[i] == outs[i];
    }
    if AnyCircular(all) {
      var i :| 0 <= i < |all| && HasCircular(all[i]);
      assert HasCircular(outs[i]);
    }
  }

  lemma ListRecordCircular(kind: string, field: string, outs: seq<Out>, size: nat)
    requires field != "type" && field != "size"
    ensures HasCircular(ListRecord(kind, field, outs, size)) <==> AnyCircular(outs)
  {
    var f := ListRecord(kind, field, outs, size).fields;
    assert f[field] == OSeq(outs);
    assert f["type"] == OText(kind) && f["size"] == OCount(size);
    assert HasCircular(OSeq(outs)) <==> AnyCircular(outs);
  }

  lemma PairsCircular(outs: seq<Out>)
    requires |outs| % 2 == 0
    ensures AnyCircular(Pairs(outs)) <==> AnyCircular(outs)
  {
    var ps := Pairs(outs);
    forall i | 0 <= i < |ps|
      ensures HasCircular(ps[i]) <==> HasCircular(outs[2 * i]) || HasCircular(outs[2 * i + 1])
    {
      var p := [outs[2 * i], outs[2 * i + 1]];
      assert ps[i] == OSeq(p) && p[0] == outs[2 * i] && p[1] == outs[2 * i + 1];
      assert HasCircular(OSeq(p)) <==> HasCircular(p[0]) || HasCircular(p[1]);
    }
    if AnyCircular(outs) {
      var i :| 0 <= i < |outs| && HasCircular(outs[i]);
      assert HasCircular(ps[i / 2]);
    }
  }

  lemma {:induction false} PutAllKeeps(output: map<string, Out>, fields: seq<(string, Value)>, outs: seq<Out>, i: nat)
    requires i < |outs| <= |fields| && DistinctKeys(fields)
    ensures fields[i].0 in PutAll(output, fields, outs) && PutAll(output, fields, outs)[fields[i].0] == outs[i]
    decreases |outs|
  {
    var n := |outs| - 1;
    if i < n { PutAllKeeps(output, fields[..n], outs[..n], i); }
  }

  lemma {:induction false} PutAllComesFrom(output: map<string, Out>, fields: seq<(string, Value)>, outs: seq<Out>,
      k: string)
    requires |outs| <= |fields| && k in PutAll(output, fields, outs)
    ensures (k in output && PutAll(output, fields, outs)[k] == output[k]) || PutAll(output, fields, outs)[k] in outs
    decreases |outs|
  {
    if |outs| > 0 {
      var n := |outs| - 1;
      if fields[n].0 == k {
        assert outs[n] in outs;
      } else {
        PutAllComesFrom(output, fields[..n], outs[..n], k);
      }
    }
  }

  lemma ObjectCircular(h: Heap, opts: Options, b: Body, outs: seq<Out>)
    requires b.ObjectBody? && |outs| <= |b.fields| && (opts.sanitizeValues ==> |outs| <= MAX_OBJECT_KEYS)
    ensures HasCircular(Assemble(h, opts, b, outs)) ==> AnyCircular(outs)
    ensures OrdinaryFields(opts, b) && AnyCircular(outs) ==> HasCircular(Assemble(h, opts, b, outs))
  {
    hide PutAll, ClassOf, Exposed;
    var first := FirstFields(h, b);
    var put := PutAll(first, b.fields, outs);
    var all := WithTruncatedKeys(opts, put, |b.fields|);
    assert Assemble(h, opts, b, outs) == ORecord(all);
    if HasCircular(ORecord(all)) {
      var k :| k in all && HasCircular(all[k]);
      assert k in put && all[k] == put[k];
      PutAllComesFrom(first, b.fields, outs, k);
      assert put[k] in outs;
    }
    if OrdinaryFields(opts, b) && AnyCircular(outs) {
      var i :| 0 <= i < |outs| && HasCircular(outs[i]);
      PutAllKeeps(first, b.fields, outs, i);
      var k := b.fields[i].0;
      assert k in all && all[k] == put[k] == outs[i];
    }
  }

  lemma CauseCircular(h: Heap, opts: Options, b: Body, out: Out)
    requires b.ErrorBody?
    ensures HasCircular(Assemble(h, opts, b, [out])) <==> HasCircular(out)
  {
    var f := ErrorFields(opts, b)["cause" := out];
    assert Assemble(h, opts, b, [out]) == ORecord(f);
    PlainFieldsHaveNoCircular(opts, b);
    assert f["cause"] == out;
    assert forall k | k in f && k != "cause" :: f[k] == ErrorFields(opts, b)[k];
  }

  lemma AssembleCircular(h: Heap, opts: Options, n: nat, outs: seq<Out>)
    requires n < |h| && Closed(h, h[n].body) && !IsLeaf(h, n) && |outs| == |Children(h, opts, n)|
    ensures HasCircular(Assemble(h, opts, h[n].body, outs)) ==> AnyCircular(outs)
    ensures OrdinaryFields(opts, h[n].body) && AnyCircular(outs) ==> HasCircular(Assemble(h, opts, h[n].body, outs))
  {
    hide HasCircular, ListRecord, Pairs, PutAll, WithMarker, ErrorFields, SerializedBuffer;
    match h[n].body
    case MapBody(entries) =>
      PairsCircular(outs);
      MarkerHasNoCircular(opts, Pairs(outs), |entries|);
      ListRecordCircular("Map", "entries", WithMarker(opts, Pairs(outs), |entries|), |entries|);
    case SetBody(values) =>
      MarkerHasNoCircular(opts, outs, |values|);
      ListRecordCircular("Set", "values", WithMarker(opts, outs, |values|), |values|);
    case ArrayBody(items) =>
      MarkerHasNoCircular(opts, outs, |items|);
      SeqCircular(WithMarker(opts, outs, |items|));
    case ObjectBody(_, _) => ObjectCircular(h, opts, h[n].body, outs);
    case ErrorBody(_, _, _, _, _) =>
      assert outs == [outs[0]];
      CauseCircular(h, opts, h[n].body, outs[0]);
      assert AnyCircular(outs) <==> HasCircular(outs[0]);
    case _ =>
  }

  lemma SeqCircular(outs: seq<Out>)
    ensures HasCircular(OSeq(outs)) <==> AnyCircular(outs)
  {
  }

  // A cycle in the graph shows, and only a cycle does.

  ghost predicate Shows(h: Heap, opts: Options, c: Child, depth: nat, path: set<nat>)
    requires WellFormed(h) && ValidRef(h, c.value)
  {
    HasCircular(Caught(Tree(h, opts, c, depth, path)))
  }

  lemma {:induction false} CyclesShow(h: Heap, opts: Options, walk: seq<Child>, depth: nat, path: set<nat>)
    requires WellFormed(h) && OrdinaryKeys(h, opts)
    requires ClosesCycle(h, opts, walk, depth, path)
    ensures Enters(h, opts, walk[0]) && Shows(h, opts, walk[0], depth, path)
    decreases |walk|
  {
    hide Assemble, LeafOutcome, Children, PrimitiveOut, IsSensitiveKey, Budget, DepthOutcome, IsLeaf, OrdinaryFields,
         HasCircular, Throwing;
    WalkEnters(h, opts, walk, depth);
    var c, n := walk[0], walk[0].value.node;
    assert Ranks(h, RankOf(h));
    if EntersContainer(h, opts, c) && n in path {
      RefusedCircular(h[n].body);
    } else {
      FirstStep(h, opts, walk, depth, path);
      var i := IndexOf(Children(h, opts, n), walk[1]);
      var inside := if IsContainer(h, n) then path + {n} else path;
      CyclesShow(h, opts, walk[1..], depth + 1, inside);
      if IsContainer(h, n) {
        BudgetFallsInside(h, opts, depth, path, n);
        var outs := Trees(h, opts, Children(h, opts, n), depth + 1, inside);
        assert HasCircular(outs[i]);
        AssembleCircular(h, opts, n, outs);
      } else {
        BudgetFalls(h, opts, depth, path, path);
        CauseShows(h, opts, c, depth, path);
      }
    }
  }

  lemma RefusedCircular(b: Body)
    ensures HasCircular(Refused(b, OCircular))
  {
    SeqCircular([OCircular]);
    assert HasCircular([OCircular][0]);
  }

  lemma IndexOf(cs: seq<Child>, c: Child) returns (i: nat)
    requires c in cs
    ensures i < |cs| && cs[i] == c
  {
    i :| 0 <= i < |cs| && cs[i] == c;
  }

  /** Unless the walk ends at once, it goes one level down and closes there. */
  lemma FirstStep(h: Heap, opts: Options, walk: seq<Child>, depth: nat, path: set<nat>)
    requires WellFormed(h) && ClosesCycle(h, opts, walk, depth, path)
    requires !(EntersContainer(h, opts, walk[0]) && walk[0].value.node in path)
    ensures |walk| > 1 && Descends(h, opts, walk[0], walk[1], depth)
    ensures ClosesCycle(h, opts, walk[1..], depth + 1,
                        if IsContainer(h, walk[0].value.node) then path + {walk[0].value.node} else path)
  {
    hide Children, IsSensitiveKey, IsLeaf, Admits;
    WalkEnters(h, opts, walk, depth);
    var last := walk[|walk| - 1].value;
    if |walk| > 1 {
      var rest := walk[1..];
      var n := walk[0].value.node;
      var inside := if IsContainer(h, n) then path + {n} else path;
      assert Descends(h, opts, walk[0], walk[1], depth + 0);
      assert rest[|rest| - 1] == walk[|walk| - 1];
      forall i | 0 <= i < |rest| - 1
        ensures Descends(h, opts, rest[i], rest[i + 1], depth + 1 + i)
      {
        assert Descends(h, opts, walk[i + 1], walk[i + 2], depth + (i + 1));
      }
      if last.node !in path {
        var i :| 0 <= i < |walk| - 1 && walk[i].value == last;
        if i > 0 { assert rest[i - 1] == walk[i]; }
      }
      assert Returns(rest, inside);
    }
  }

  lemma CauseShows(h: Heap, opts: Options, c: Child, depth: nat, path: set<nat>)
    requires WellFormed(h) && ValidRef(h, c.value) && Enters(h, opts, c) && h[c.value.node].body.ErrorBody?
    ensures Children(h, opts, c.value.node) == [Child(Keyed("cause"), h[c.value.node].body.cause.value)]
    ensures Shows(h, opts, c, depth, path)
            <==> Shows(h, opts, Child(Keyed("cause"), h[c.value.node].body.cause.value), depth + 1, path)
  {
    hide HasCircular, Assemble, PrimitiveOut, IsSensitiveKey, Budget;
    assert Ranks(h, RankOf(h));
    var b := h[c.value.node].body;
    var inner := Tree(h, opts, Child(Keyed("cause"), b.cause.value), depth + 1, path);
    if inner.Done? { CauseCircular(h, opts, b, inner.out); }
  }

  lemma {:induction false} OnlyCyclesShow(h: Heap, opts: Options, c: Child, depth: nat, path: set<nat>)
    returns (walk: seq<Child>)
    requires WellFormed(h) && ValidRef(h, c.value) && Shows(h, opts, c, depth, path)
    ensures ClosesCycle(h, opts, walk, depth, path) && walk[0] == c
    decreases Budget(h, opts, depth, path), CauseRank(h, RankOf(h), c.value)
  {
    hide Assemble, LeafOutcome, Children, PrimitiveOut, IsSensitiveKey, Budget, DepthOutcome, IsLeaf, OrdinaryFields,
         HasCircular, Throwing, Refused, Descends;
    assert Ranks(h, RankOf(h));
    EnteredOrPlain(h, opts, c, depth, path);
    var n := c.value.node;
    if h[n].body.ErrorBody? {
      CauseShows(h, opts, c, depth, path);
      BudgetFalls(h, opts, depth, path, path);
      var down := OnlyCyclesShow(h, opts, Child(Keyed("cause"), h[n].body.cause.value), depth + 1, path);
      walk := Prepended(h, opts, c, down, depth, path);
    } else if n in path {
      walk := [c];
    } else {
      UnserializableIsPlain(CLASS_ERROR);
      RefusalHasNoCircular(h, h[n].body);
      BudgetFallsInside(h, opts, depth, path, n);
      var cs := Children(h, opts, n);
      var outs := Trees(h, opts, cs, depth + 1, path + {n});
      AssembleCircular(h, opts, n, outs);
      var i :| 0 <= i < |outs| && HasCircular(outs[i]);
      var down := OnlyCyclesShow(h, opts, cs[i], depth + 1, path + {n});
      walk := Prepended(h, opts, c, down, depth, path);
    }
  }

  lemma UnserializableIsPlain(message: string)
    ensures !HasCircular(OUnserializable(message))
  {
  }

  lemma RefusalHasNoCircular(h: Heap, b: Body)
    ensures !HasCircular(Caught(DepthOutcome(h, b)))
  {
    hide ClassOf, KeyText;
    forall size ensures !HasCircular(OSeq([OMaxDepth("Array length", size)])) {
      SeqCircular([OMaxDepth("Array length", size)]);
    }
  }

  lemma EnteredOrPlain(h: Heap, opts: Options, c: Child, depth: nat, path: set<nat>)
    requires WellFormed(h) && ValidRef(h, c.value) && Shows(h, opts, c, depth, path)
    ensures Enters(h, opts, c)
    ensures h[c.value.node].body.ErrorBody? ==> HasCause(h[c.value.node].body)
  {
    hide Assemble, LeafOutcome, Children, IsSensitiveKey, Budget;
    if c.value.Ref? && IsLeaf(h, c.value.node) && LeafOutcome(h, opts, c.value.node).Done? {
      LeavesHaveNoCircular(h, opts, c.value.node);
    }
  }

  lemma Prepended(h: Heap, opts: Options, c: Child, down: seq<Child>, depth: nat, path: set<nat>)
    returns (walk: seq<Child>)
    requires WellFormed(h) && Enters(h, opts, c) && |down| > 0
    requires Admits(h, opts, c.value.node, depth)
    requires Ranks(h, RankOf(h)) && down[0] in Children(h, opts, c.value.node)
    requires ClosesCycle(h, opts, down, depth + 1, if IsContainer(h, c.value.node) then path + {c.value.node} else path)
    ensures ClosesCycle(h, opts, walk, depth, path) && walk[0] == c
  {
    hide Children, IsSensitiveKey, IsLeaf, Admits;
    walk := [c] + down;
    var last := walk[|walk| - 1].value;
    assert last == down[|down| - 1].value;
    forall i | 0 <= i < |walk| - 1
      ensures Descends(h, opts, walk[i], walk[i + 1], depth + i)
    {
      if i > 0 {
        assert Descends(h, opts, down[i - 1], down[i], depth + 1 + (i - 1));
      } else if |down| > 1 {
        assert Descends(h, opts, down[0], down[1], depth + 1 + 0);
      }
    }
    if last.node !in path && !(IsContainer(h, c.value.node) && last.node == c.value.node) {
      var i :| 0 <= i < |down| - 1 && down[i].value == last;
      assert walk[i + 1].value == last;
    }
    assert walk[0].value == c.value;
    assert Returns(walk, path);
  }

  /** [Circular] is shown exactly when a container that is reached lies inside itself. */
  lemma {:induction false} CircularIffCycle(h: Heap, opts: Options, v: Value)
    requires WellFormed(h) && ValidRef(h, v) && CalmFrom(h, opts, Child(Unkeyed, v), 0) && OrdinaryKeys(h, opts)
    ensures HasCircular(Caught(SanitizeLogValue(h, opts, v)))
            <==> exists walk :: ClosesCycle(h, opts, walk, 0, {}) && walk[0] == Child(Unkeyed, v)
  {
    hide Run, Tree, HasCircular, CalmFrom, OrdinaryKeys;
    RunIsTree(h, opts, Child(Unkeyed, v), 0, {});
    if Shows(h, opts, Child(Unkeyed, v), 0, {}) {
      var walk := OnlyCyclesShow(h, opts, Child(Unkeyed, v), 0, {});
    }
    if walk :| ClosesCycle(h, opts, walk, 0, {}) && walk[0] == Child(Unkeyed, v) {
      CyclesShow(h, opts, walk, 0, {});
    }
  }

  // Where in the output [Circular] stands: a place is named by the positions of children on the way to it.

  function Entry(out: Out, key: string): Option<Out> {
    if out.ORecord? && key in out.fields then Some(out.fields[key]) else None
  }

  function Item(out: Option<Out>, i: nat): Option<Out> {
    if out.Some? && out.value.OSeq? && i < |out.value.items| then Some(out.value.items[i]) else None
  }

  /** The part of a node's output that stands for child i. */
  function Part(b: Body, out: Out, i: nat): Option<Out> {
    match b
    case MapBody(_) => Item(Item(Entry(out, "entries"), i / 2), i % 2)
    case SetBody(_) => Item(Entry(out, "values"), i)
    case ArrayBody(_) => Item(Some(out), i)
    case ObjectBody(_, fields) => if i < |fields| then Entry(out, fields[i].0) else None
    case _ => Entry(out, "cause")
  }

  /** The part of the output for c that stands for the value these positions lead to. */
  function OutAt(h: Heap, opts: Options, out: Out, c: Child, ps: seq<nat>): Option<Out>
    requires WellFormed(h)
    decreases |ps|
  {
    assert Ranks(h, RankOf(h));
    if ps == [] then Some(out)
    else if !Enters(h, opts, c) || ps[0] >= |Children(h, opts, c.value.node)| then None
    else
      match Part(h[c.value.node].body, out, ps[0])
      case Some(inner) => OutAt(h, opts, inner, Children(h, opts, c.value.node)[ps[0]], ps[1..])
      case None => None
  }

  function Inside(h: Heap, n: nat, path: set<nat>): set<nat>
    requires n < |h|
  {
    if IsContainer(h, n) then path + {n} else path
  }

  /** These positions lead from c, inside the containers `path`, to `target` inside the containers `around`. */
  ghost predicate LeadsTo(
    h: Heap, opts: Options, c: Child, ps: seq<nat>, depth: nat, path: set<nat>, target: Child, around: set<nat>)
    requires WellFormed(h)
    decreases |ps|
  {
    assert Ranks(h, RankOf(h));
    if ps == [] then c == target && path == around && EntersContainer(h, opts, c)
    else
      && Enters(h, opts, c) && ps[0] < |Children(h, opts, c.value.node)|
      && Admits(h, opts, c.value.node, depth) && (IsContainer(h, c.value.node) ==> c.value.node !in path)
      && LeadsTo(h, opts, Children(h, opts, c.value.node)[ps[0]], ps[1..], depth + 1, Inside(h, c.value.node, path),
                 target, around)
  }

  /** How a container reads that lies inside the containers `around`. */
  function Reading(h: Heap, opts: Options, n: nat, depth: nat, around: set<nat>): Outcome
    requires WellFormed(h) && n < |h| && IsContainer(h, n)
  {
    assert Ranks(h, RankOf(h));
    if n in around then Done(Refused(h[n].body, OCircular))
    else if !Opens(h, h[n].body) then Thrown(CLASS_ERROR)
    else if TooDeep(opts, depth) then DepthOutcome(h, h[n].body)
    else Done(Assemble(h, opts, h[n].body, Trees(h, opts, Children(h, opts, n), depth + 1, around + {n})))
  }

  lemma PartOfObject(h: Heap, opts: Options, b: Body, outs: seq<Out>, i: nat)
    requires b.ObjectBody? && OrdinaryFields(opts, b) && i < |outs| <= |b.fields|
    requires opts.sanitizeValues ==> |outs| <= MAX_OBJECT_KEYS
    ensures Part(b, Assemble(h, opts, b, outs), i) == Some(outs[i])
  {
    PutAllKeeps(FirstFields(h, b), b.fields, outs, i);
  }

  lemma PartOfAssembled(h: Heap, opts: Options, n: nat, outs: seq<Out>, i: nat)
    requires n < |h| && Closed(h, h[n].body) && !IsLeaf(h, n) && OrdinaryFields(opts, h[n].body)
    requires i < |outs| == |Children(h, opts, n)|
    ensures Part(h[n].body, Assemble(h, opts, h[n].body, outs), i) == Some(outs[i])
  {
    hide PutAll, OrdinaryFields, SerializedBuffer, EntryChildren, WithMarker;
    if h[n].body.ObjectBody? {
      PartOfObject(h, opts, h[n].body, outs, i);
    } else if h[n].body.MapBody? {
      var entries := h[n].body.entries;
      assert |outs| == 2 * |Prefix(opts, MAX_ARRAY_ITEMS, entries)| by { EvenlyMany(h, opts, entries); }
      MarkerKeepsItems(opts, Pairs(outs), |entries|, i / 2);
      PairsHold(outs, i);
    } else if h[n].body.SetBody? {
      MarkerKeepsItems(opts, outs, |h[n].body.values|, i);
    } else if h[n].body.ArrayBody? {
      MarkerKeepsItems(opts, outs, |h[n].body.items|, i);
    }
  }

  lemma EvenlyMany(h: Heap, opts: Options, entries: seq<(Value, Value)>)
    requires forall i | 0 <= i < |entries| :: ValidRef(h, entries[i].0)
    ensures |EntryChildren(h, Prefix(opts, MAX_ARRAY_ITEMS, entries))| == 2 * |Prefix(opts, MAX_ARRAY_ITEMS, entries)|
  {
  }

  lemma MarkerKeepsItems(opts: Options, outs: seq<Out>, originalLength: nat, i: nat)
    requires i < |outs|
    ensures i < |WithMarker(opts, outs, originalLength)| && WithMarker(opts, outs, originalLength)[i] == outs[i]
  {
  }

  lemma PairsHold(outs: seq<Out>, i: nat)
    requires |outs| % 2 == 0 && i < |outs|
    ensures i / 2 < |Pairs(outs)| && Pairs(outs)[i / 2].OSeq? && |Pairs(outs)[i / 2].items| == 2
    ensures Pairs(outs)[i / 2].items[i % 2] == outs[i]
  {
    assert i == 2 * (i / 2) + i % 2;
  }

  lemma {:induction false} PlacesReadByWhatIsAround(
    h: Heap, opts: Options, c: Child, ps: seq<nat>, depth: nat, path: set<nat>, target: Child, around: set<nat>)
    requires WellFormed(h) && ValidRef(h, c.value) && OrdinaryKeys(h, opts)
    requires LeadsTo(h, opts, c, ps, depth, path, target, around)
    ensures EntersContainer(h, opts, target)
    ensures var reading := Reading(h, opts, target.value.node, depth + |ps|, around);
            reading.Done? ==>
              && Tree(h, opts, c, depth, path).Done?
              && OutAt(h, opts, Tree(h, opts, c, depth, path).out, c, ps) == Some(reading.out)
    decreases |ps|
  {
    hide Assemble, Children, IsSensitiveKey, IsLeaf, OrdinaryFields, Part, Budget, DepthOutcome;
    assert Ranks(h, RankOf(h));
    if ps != [] {
      var n := c.value.node;
      var cs, i := Children(h, opts, n), ps[0];
      PlacesReadByWhatIsAround(h, opts, cs[i], ps[1..], depth + 1, Inside(h, n, path), target, around);
      if Reading(h, opts, target.value.node, depth + |ps|, around).Thrown? {
      } else if IsContainer(h, n) {
        BudgetFallsInside(h, opts, depth, path, n);
        PartOfAssembled(h, opts, n, Trees(h, opts, cs, depth + 1, path + {n}), i);
      } else {
        BudgetFalls(h, opts, depth, path, path);
        EnteredErrorHasCause(h, opts, n);
        PartOfAssembled(h, opts, n, [Tree(h, opts, cs[0], depth + 1, path).out], i);
      }
    }
  }

  lemma EnteredErrorHasCause(h: Heap, opts: Options, n: nat)
    requires n < |h| && Closed(h, h[n].body) && !IsLeaf(h, n) && !IsContainer(h, n)
    ensures HasCause(h[n].body) && Children(h, opts, n) == [Child(Keyed("cause"), h[n].body.cause.value)]
  {
  }

  /**
   * The located form: wherever a container is reached, its place in the output reads [Circular] if the
   * container is one of those around it, and otherwise shows the container itself or the depth marker. (It
   * may also throw, if its class name cannot be looked up or written down.)
   */
  lemma {:induction false} CircularStandsAtReturns(
    h: Heap, opts: Options, v: Value, ps: seq<nat>, target: Child, around: set<nat>)
    requires WellFormed(h) && ValidRef(h, v) && CalmFrom(h, opts, Child(Unkeyed, v), 0) && OrdinaryKeys(h, opts)
    requires LeadsTo(h, opts, Child(Unkeyed, v), ps, 0, {}, target, around)
    ensures EntersContainer(h, opts, target)
    ensures var reading := Reading(h, opts, target.value.node, |ps|, around);
            reading.Done? ==>
              && SanitizeLogValue(h, opts, v).Done?
              && OutAt(h, opts, SanitizeLogValue(h, opts, v).out, Child(Unkeyed, v), ps) == Some(reading.out)
  {
    hide Run, Tree, CalmFrom, OrdinaryKeys, LeadsTo, Reading, OutAt;
    RunIsTree(h, opts, Child(Unkeyed, v), 0, {});
    PlacesReadByWhatIsAround(h, opts, Child(Unkeyed, v), ps, 0, {}, target, around);
  }

  lemma ShortKeysAreNotSensitive(key: string)
    requires |key| <= 3
    ensures !IsSensitiveKey(key)
  {
    hide Includes;
    NormalizeShrinks(key);
    forall i | 0 <= i < |SENSITIVE_KEY_PARTS| ensures !Includes(Normalize(key), SENSITIVE_KEY_PARTS[i]) {
      assert |SENSITIVE_KEY_PARTS[i]| >= 4;
      if Includes(Normalize(key), SENSITIVE_KEY_PARTS[i]) { IncludesFits(Normalize(key), SENSITIVE_KEY_PARTS[i]); }
    }
  }

  lemma {:induction false} NormalizeShrinks(key: string)
    ensures |Normalize(key)| <= |key|
  {
    if key != "" { NormalizeShrinks(key[1..]); }
  }

  // Exactly when [Circular] can be trusted.

  /** What becomes of the fields of an object built over the graph and met at this depth, one after another. */
  ghost function Rendered(h: Heap, opts: Options, fields: seq<(string, Value)>, depth: nat): (outs: seq<Out>)
    requires WellFormed(h) && Buildable(h, fields)
  {
    RunAll(h, opts, FieldChildren(fields), depth, {}, true).0.outs
  }

  /** Fields that an object over the graph can have. */
  ghost predicate Buildable(h: Heap, fields: seq<(string, Value)>) {
    DistinctKeys(fields) && forall i | 0 <= i < |fields| :: ValidRef(h, fields[i].1)
  }

  /** Some container reached from c lies inside itself. */
  ghost predicate Cyclic(h: Heap, opts: Options, c: Child, depth: nat)
    requires WellFormed(h)
  {
    exists walk :: ClosesCycle(h, opts, walk, depth, {}) && walk[0] == c
  }

  ghost predicate AnyCyclic(h: Heap, opts: Options, fields: seq<(string, Value)>, depth: nat)
    requires WellFormed(h)
  {
    exists i | 0 <= i < |fields| :: Cyclic(h, opts, FieldChildren(fields)[i], depth)
  }

  /** Whatever an object's fields are, [Circular] is shown among them if and only if they reach a cycle. */
  ghost predicate CircularIsExact(h: Heap, opts: Options)
    requires WellFormed(h)
  {
    forall fields, depth: nat | Buildable(h, fields) ::
      AnyCircular(Rendered(h, opts, fields, depth)) <==> AnyCyclic(h, opts, fields, depth)
  }

  /** Whatever an object's fields are, [Circular] is shown among them only if they reach a cycle. */
  ghost predicate CircularIsTrue(h: Heap, opts: Options)
    requires WellFormed(h)
  {
    forall fields, depth: nat | Buildable(h, fields) ::
      AnyCircular(Rendered(h, opts, fields, depth)) ==> AnyCyclic(h, opts, fields, depth)
  }

  /** A list with a throwing value may stand only where it leads to a cycle anyway. */
  ghost predicate LeaksLeadToCycles(h: Heap, opts: Options)
    requires WellFormed(h)
  {
    forall n, depth: nat | 0 <= n < |h| && LeaksAt(h, opts, n, depth) :: Cyclic(h, opts, Child(Unkeyed, Ref(n)), depth)
  }

  lemma CyclicShows(h: Heap, opts: Options, c: Child, depth: nat)
    requires WellFormed(h) && ValidRef(h, c.value) && OrdinaryKeys(h, opts) && Cyclic(h, opts, c, depth)
    ensures Shows(h, opts, c, depth, {})
  {
    hide Descends, Shows, OrdinaryKeys, Returns;
    var walk :| ClosesCycle(h, opts, walk, depth, {}) && walk[0] == c;
    CyclesShow(h, opts, walk, depth, {});
  }

  lemma ShowsCyclic(h: Heap, opts: Options, c: Child, depth: nat)
    requires WellFormed(h) && ValidRef(h, c.value) && Shows(h, opts, c, depth, {})
    ensures Cyclic(h, opts, c, depth)
  {
    hide ClosesCycle, Shows;
    var walk := OnlyCyclesShow(h, opts, c, depth, {});
  }

  lemma RenderedTrees(h: Heap, opts: Options, fields: seq<(string, Value)>, depth: nat)
    requires WellFormed(h) && Buildable(h, fields)
    requires forall i | 0 <= i < |fields| :: CalmFrom(h, opts, FieldChildren(fields)[i], depth)
    ensures AnyCircular(Rendered(h, opts, fields, depth)) ==> AnyCyclic(h, opts, fields, depth)
    ensures OrdinaryKeys(h, opts) && AnyCyclic(h, opts, fields, depth) ==> AnyCircular(Rendered(h, opts, fields, depth))
  {
    hide CalmFrom, Run, RunAll, Tree, HasCircular, OrdinaryKeys, Cyclic, Trees;
    var cs := FieldChildren(fields);
    RunAllIsTrees(h, opts, cs, depth, {}, true);
    var outs := Trees(h, opts, cs, depth, {});
    if AnyCircular(outs) {
      var i :| 0 <= i < |outs| && HasCircular(outs[i]);
      ShowsCyclic(h, opts, cs[i], depth);
    }
    if OrdinaryKeys(h, opts) && AnyCyclic(h, opts, fields, depth) {
      var i :| 0 <= i < |fields| && Cyclic(h, opts, cs[i], depth);
      CyclicShows(h, opts, cs[i], depth);
      assert HasCircular(outs[i]);
    }
  }

  function Once(n: nat): seq<(string, Value)> { [("a", Ref(n))] }

  function Twice(n: nat): seq<(string, Value)> { [("a", Ref(n)), ("b", Ref(n))] }

  /** A leaking list is lost the first time and shown as circular the second time. */
  lemma LeakShows(h: Heap, opts: Options, n: nat, depth: nat)
    requires WellFormed(h) && n < |h| && LeaksAt(h, opts, n, depth)
    ensures Buildable(h, Once(n)) && !AnyCircular(Rendered(h, opts, Once(n), depth))
    ensures Buildable(h, Twice(n)) && AnyCircular(Rendered(h, opts, Twice(n), depth))
  {
    hide Children, Budget, NoneThrows, RunAll, HasCircular, Run, LeaksAt, IsSensitiveKey;
    var a, b := Child(Keyed("a"), Ref(n)), Child(Keyed("b"), Ref(n));
    ShortKeysAreNotSensitive("a");
    ShortKeysAreNotSensitive("b");
    LeakLeaves(h, opts, n, depth);
    HarmlessKey(h, opts, "a", Ref(n), depth, {});
    var (first, mid) := Run(h, opts, a, depth, {});
    var marker := Refused(h[n].body, OCircular);
    RefusedCircular(h[n].body);
    Unfold(h, opts, b, depth, mid);
    assert FieldChildren(Once(n)) == [a] && FieldChildren(Twice(n)) == [a, b];
    assert [a, b][..1] == [a] && [a][..0] == [];
    RunAllOfOne(h, opts, [a], depth, {});
    RunAllOfOne(h, opts, [a, b], depth, {});
    assert Rendered(h, opts, Once(n), depth) == [Caught(first)];
    assert Rendered(h, opts, Twice(n), depth) == [Caught(first), marker];
    assert !HasCircular(Caught(first)) by { UnserializableIsPlain(first.message); }
    assert HasCircular([Caught(first), marker][1]);
  }

  /** A key that is not sensitive makes no difference. */
  lemma HarmlessKey(h: Heap, opts: Options, key: string, v: Value, depth: nat, seen: set<nat>)
    requires WellFormed(h) && ValidRef(h, v) && !IsSensitiveKey(key)
    ensures Run(h, opts, Child(Keyed(key), v), depth, seen) == Run(h, opts, Child(Unkeyed, v), depth, seen)
  {
    hide Children, Budget, RunAll, LeafOutcome, IsLeaf, Assemble, DepthOutcome, IsSensitiveKey;
  }

  /** A cycle reached under one such key is reached under any. */
  lemma HarmlessKeyCyclic(h: Heap, opts: Options, c: Child, d: Child, depth: nat)
    requires WellFormed(h) && Cyclic(h, opts, c, depth) && c.value == d.value && Enters(h, opts, d)
    ensures Cyclic(h, opts, d, depth)
  {
    hide Descends, Enters;
    var walk :| ClosesCycle(h, opts, walk, depth, {}) && walk[0] == c;
    assert Walk(h, opts, [d], depth) && depth + |[d]| - 1 == depth;
    JoinCloses(h, opts, [d], walk, depth);
  }

  lemma RunAllOfOne(h: Heap, opts: Options, cs: seq<Child>, depth: nat, seen: set<nat>)
    requires WellFormed(h) && cs != [] && forall i | 0 <= i < |cs| :: ValidRef(h, cs[i].value)
    ensures var (before, mid) := RunAll(h, opts, cs[..|cs| - 1], depth, seen, true);
            var (last, after) := Run(h, opts, cs[|cs| - 1], depth, mid);
            RunAll(h, opts, cs, depth, seen, true) == (AllDone(before.outs + [Caught(last)]), after)
    ensures RunAll(h, opts, [], depth, seen, true) == (AllDone([]), seen)
  {
    hide Run;
  }

  lemma Unfold(h: Heap, opts: Options, c: Child, depth: nat, seen: set<nat>)
    requires WellFormed(h) && EntersContainer(h, opts, c) && c.value.node in seen
    ensures Run(h, opts, c, depth, seen) == (Done(Refused(h[c.value.node].body, OCircular)), seen)
  {
    hide Children, Budget, IsLeaf, RunAll;
  }

  /**
   * [Circular] says exactly where cycles are, for the fields of every object built over the graph, if and
   * only if no map, set or array of the graph holds a throwing value.
   */
  lemma {:induction false} CircularIsExactIffCalm(h: Heap, opts: Options)
    requires WellFormed(h) && OrdinaryKeys(h, opts)
    ensures CircularIsExact(h, opts) <==> Calm(h, opts)
  {
    hide Rendered, Cyclic, CalmFrom, OrdinaryKeys, AnyCircular, LeaksAt, IsSensitiveKey, Enters;
    if Calm(h, opts) {
      forall fields, depth: nat | Buildable(h, fields)
        ensures AnyCircular(Rendered(h, opts, fields, depth)) <==> AnyCyclic(h, opts, fields, depth)
      {
        forall i | 0 <= i < |fields| ensures CalmFrom(h, opts, FieldChildren(fields)[i], depth) {
          CalmGraphsAreCalmFrom(h, opts, FieldChildren(fields)[i], depth);
        }
        RenderedTrees(h, opts, fields, depth);
      }
    } else {
      var n, depth: nat :| 0 <= n < |h| && LeaksAt(h, opts, n, depth);
      LeakShows(h, opts, n, depth);
      LeakEnters(h, opts, n, depth);
      var a, b := FieldChildren(Twice(n))[0], FieldChildren(Twice(n))[1];
      assert FieldChildren(Once(n))[0] == a;
      if Cyclic(h, opts, a, depth) {
        assert AnyCyclic(h, opts, Once(n), depth);
      } else {
        if Cyclic(h, opts, b, depth) { HarmlessKeyCyclic(h, opts, b, a, depth); }
        assert !AnyCyclic(h, opts, Twice(n), depth);
      }
    }
  }

  lemma LeakEnters(h: Heap, opts: Options, n: nat, depth: nat)
    requires WellFormed(h) && n < |h| && LeaksAt(h, opts, n, depth)
    ensures Enters(h, opts, Child(Keyed("a"), Ref(n))) && Enters(h, opts, Child(Unkeyed, Ref(n)))
  {
    hide IsSensitiveKey;
    ShortKeysAreNotSensitive("a");
  }

  /** A value that reaches no cycle reaches no leaking list, where those lead to cycles. */
  lemma NoCycleIsCalm(h: Heap, opts: Options, c: Child, depth: nat)
    requires WellFormed(h) && LeaksLeadToCycles(h, opts) && !Cyclic(h, opts, c, depth)
    ensures CalmFrom(h, opts, c, depth)
  {
    hide Children, IsSensitiveKey, IsLeaf, TooDeep, NoneThrows, Descends;
    forall walk | Walk(h, opts, walk, depth) && walk[0] == c
      ensures CalmAt(h, opts, walk[|walk| - 1], depth + |walk| - 1)
    {
      var last := walk[|walk| - 1];
      if !CalmAt(h, opts, last, depth + |walk| - 1) {
        assert LeaksAt(h, opts, last.value.node, depth + |walk| - 1);
        var down :| ClosesCycle(h, opts, down, depth + |walk| - 1, {}) && down[0] == Child(Unkeyed, last.value);
        JoinCloses(h, opts, walk, down, depth);
      }
    }
  }

  lemma JoinCloses(h: Heap, opts: Options, walk: seq<Child>, down: seq<Child>, depth: nat)
    requires WellFormed(h) && Walk(h, opts, walk, depth) && ClosesCycle(h, opts, down, depth + |walk| - 1, {})
    requires down[0].value == walk[|walk| - 1].value
    ensures Cyclic(h, opts, walk[0], depth)
  {
    hide Descends, Enters;
    JoinWalks(h, opts, walk, down, depth);
    var all := walk + down[1..];
    var i :| 0 <= i < |down| - 1 && down[i].value == down[|down| - 1].value;
    assert all[|all| - 1] == down[|down| - 1];
    assert all[|walk| - 1 + i].value == down[i].value;
    assert ClosesCycle(h, opts, all, depth, {}) && all[0] == walk[0];
  }

  /** [Circular] is never shown without a cycle if and only if every leaking list leads to a cycle itself. */
  lemma {:induction false} CircularIsTrueIffLeaksLeadToCycles(h: Heap, opts: Options)
    requires WellFormed(h)
    ensures CircularIsTrue(h, opts) <==> LeaksLeadToCycles(h, opts)
  {
    hide Rendered, Cyclic, CalmFrom, OrdinaryKeys, AnyCircular, LeaksAt, IsSensitiveKey, Enters;
    if LeaksLeadToCycles(h, opts) {
      forall fields, depth: nat | Buildable(h, fields)
        ensures AnyCircular(Rendered(h, opts, fields, depth)) ==> AnyCyclic(h, opts, fields, depth)
      {
        if !AnyCyclic(h, opts, fields, depth) {
          forall i | 0 <= i < |fields| ensures CalmFrom(h, opts, FieldChildren(fields)[i], depth) {
            NoCycleIsCalm(h, opts, FieldChildren(fields)[i], depth);
          }
          RenderedTrees(h, opts, fields, depth);
        }
      }
    } else {
      var n, depth: nat :| 0 <= n < |h| && LeaksAt(h, opts, n, depth)
                           && !Cyclic(h, opts, Child(Unkeyed, Ref(n)), depth);
      LeakShows(h, opts, n, depth);
      LeakEnters(h, opts, n, depth);
      forall i | 0 <= i < 2 ensures !Cyclic(h, opts, FieldChildren(Twice(n))[i], depth) {
        if Cyclic(h, opts, FieldChildren(Twice(n))[i], depth) {
          HarmlessKeyCyclic(h, opts, FieldChildren(Twice(n))[i], Child(Unkeyed, Ref(n)), depth);
        }
      }
      assert !AnyCyclic(h, opts, Twice(n), depth);
    }
  }

  /** In an acyclic graph [Circular] is never shown if and only if no list holds a throwing value. */
  lemma {:induction false} AcyclicShowsNoneIffCalm(h: Heap, opts: Options)
    requires WellFormed(h) && forall walk, depth: nat :: !ClosesCycle(h, opts, walk, depth, {})
    ensures (forall fields, depth: nat | Buildable(h, fields) :: !AnyCircular(Rendered(h, opts, fields, depth)))
            <==> Calm(h, opts)
  {
    hide Rendered, ClosesCycle, AnyCircular, LeaksAt;
    CircularIsTrueIffLeaksLeadToCycles(h, opts);
    assert forall c, depth: nat :: !Cyclic(h, opts, c, depth);
  }

  // Sharing alone shows nothing.

  /** References only lead downwards: values may be shared, but nothing contains itself. */
  ghost predicate Acyclic(h: Heap, opts: Options, height: seq<nat>)
    requires WellFormed(h)
  {
    && |height| == |h|
    && forall from, to, depth | Descends(h, opts, from, to, depth) :: height[to.value.node] < height[from.value.node]
  }

  lemma {:induction false} WalksGoDown(h: Heap, opts: Options, height: seq<nat>, walk: seq<Child>, i: nat, j: nat)
    requires WellFormed(h) && Acyclic(h, opts, height) && ClosesCycle(h, opts, walk, 0, {}) && i < j < |walk|
    ensures walk[i].value.Ref? && walk[j].value.Ref? && walk[i].value.node < |h| && walk[j].value.node < |h|
    ensures height[walk[j].value.node] < height[walk[i].value.node]
    decreases j
  {
    hide Children, IsSensitiveKey, IsLeaf;
    assert Descends(h, opts, walk[j - 1], walk[j - 1 + 1], 0 + (j - 1));
    if i < j - 1 { WalksGoDown(h, opts, height, walk, i, j - 1); }
  }

  lemma {:induction false} AcyclicGraphsHaveNoCycle(h: Heap, opts: Options, height: seq<nat>, walk: seq<Child>)
    requires WellFormed(h) && Acyclic(h, opts, height)
    ensures !ClosesCycle(h, opts, walk, 0, {})
  {
    hide Descends, Acyclic;
    if ClosesCycle(h, opts, walk, 0, {}) {
      var i :| 0 <= i < |walk| - 1 && walk[i].value == walk[|walk| - 1].value;
      WalksGoDown(h, opts, height, walk, i, |walk| - 1);
    }
  }

  /** However often its values are shared, an acyclic graph is rendered without [Circular]. */
  lemma {:induction false} SharedIsNotCircular(h: Heap, opts: Options, v: Value, height: seq<nat>)
    requires WellFormed(h) && ValidRef(h, v) && CalmFrom(h, opts, Child(Unkeyed, v), 0) && OrdinaryKeys(h, opts)
             && Acyclic(h, opts, height)
    ensures !HasCircular(Caught(SanitizeLogValue(h, opts, v)))
  {
    hide Run, HasCircular, CalmFrom, OrdinaryKeys, ClosesCycle, Acyclic;
    CircularIffCycle(h, opts, v);
    forall walk ensures !ClosesCycle(h, opts, walk, 0, {}) {
      AcyclicGraphsHaveNoCycle(h, opts, height, walk);
    }
  }

  // A throwing value in a shared array: the array stays in `seen` and its second use reads [Circular].

  const BAD_DATE := DateBody(None)

  /** What JSON text can hold: `{"constructor": null}`. */
  const NULL_CLASS := ObjectBody(Some(Text("Object")), [("constructor", Absent("null"))])

  /** What `Object.create(null)` gives. */
  const NO_CLASS := ObjectBody(None, [])

  predicate Bad(b: Body) { b == BAD_DATE || b == NULL_CLASS || b == NO_CLASS }

  function FakeHeap(bad: Body): Heap {
    [Node(Some("[object Object]"), ObjectBody(Some(Text("Object")), [("a", Ref(1)), ("b", Ref(1))])),
     Node(Some(""), ArrayBody([Ref(2)])),
     Node(Some(""), bad)]
  }

  function Complaint(bad: Body): string { if bad == BAD_DATE then "Invalid time value" else CLASS_ERROR }

  lemma FakeHeapIsWellFormed(bad: Body, opts: Options)
    requires Bad(bad)
    ensures WellFormed(FakeHeap(bad)) && OrdinaryKeys(FakeHeap(bad), opts)
  {
    var h := FakeHeap(bad);
    assert OrdinaryFields(opts, h[0].body) && OrdinaryFields(opts, h[1].body) && OrdinaryFields(opts, h[2].body);
    assert Closed(h, h[0].body) && Closed(h, h[1].body) && Closed(h, h[2].body);
    assert !HasCause(h[0].body) && !HasCause(h[1].body) && !HasCause(h[2].body);
    hide Closed, HasCause, OrdinaryFields;
    assert Ranks(h, [0, 0, 0]);
  }

  lemma FakeHeapHasNoCycle(bad: Body, opts: Options, walk: seq<Child>)
    requires Bad(bad) && WellFormed(FakeHeap(bad))
    ensures !ClosesCycle(FakeHeap(bad), opts, walk, 0, {})
  {
    hide ClosesCycle, IsSensitiveKey, WellFormed, Ranks;
    var h, height := FakeHeap(bad), [2, 1, 0];
    forall from, to, depth | Descends(h, opts, from, to, depth)
      ensures height[to.value.node] < height[from.value.node]
    {
    }
    AcyclicGraphsHaveNoCycle(h, opts, height, walk);
  }

  lemma TheObjectThrows(bad: Body, opts: Options, depth: nat, seen: set<nat>)
    requires Bad(bad) && WellFormed(FakeHeap(bad)) && 2 !in seen
    ensures Run(FakeHeap(bad), opts, Child(Unkeyed, Ref(2)), depth, seen) == (Thrown(Complaint(bad)), seen)
  {
    hide WellFormed, Ranks, RunAll, Children, Budget;
  }

  lemma TheArrayThrows(bad: Body, opts: Options, key: string)
    requires Bad(bad) && WellFormed(FakeHeap(bad)) && !IsSensitiveKey(key)
    ensures Run(FakeHeap(bad), opts, Child(Keyed(key), Ref(1)), 1, {} + {0})
            == (Thrown(Complaint(bad)), {} + {0} + {1})
  {
    hide IsSensitiveKey, WellFormed, Ranks;
    var h := FakeHeap(bad);
    var inner, s1 := Children(h, opts, 1), {} + {0} + {1};
    assert inner == [Child(Unkeyed, Ref(2))] && inner[..0] == [];
    TheObjectThrows(bad, opts, 2, s1);
    hide TooDeep, ClassOf;
    assert RunAll(h, opts, inner[..0], 2, s1, false) == (AllDone([]), s1);
  }

  lemma TheFieldsDiffer(bad: Body, opts: Options)
    requires Bad(bad) && WellFormed(FakeHeap(bad))
    ensures Children(FakeHeap(bad), opts, 0) == [Child(Keyed("a"), Ref(1)), Child(Keyed("b"), Ref(1))]
    ensures RunAll(FakeHeap(bad), opts, Children(FakeHeap(bad), opts, 0), 1, {} + {0}, true)
            == (AllDone([OUnserializable(Complaint(bad))] + [OSeq([OCircular])]), {} + {0} + {1})
  {
    hide IsSensitiveKey, Ranks, WellFormed;
    var h := FakeHeap(bad);
    ShortKeysAreNotSensitive("a");
    ShortKeysAreNotSensitive("b");
    TheArrayThrows(bad, opts, "a");
    var cs, s0 := Children(h, opts, 0), {} + {0};
    assert cs == [Child(Keyed("a"), Ref(1)), Child(Keyed("b"), Ref(1))];
    var a := OUnserializable(Complaint(bad));
    assert [] + [a] == [a] && cs[..1] == [cs[0]] && cs[..1][..0] == [];
    assert RunAll(h, opts, cs[..1][..0], 1, s0, true) == (AllDone([]), s0);
    assert RunAll(h, opts, cs[..1], 1, s0, true) == (AllDone([] + [a]), s0 + {1});
  }

  lemma {:induction false} TheRecord(fields: seq<(string, Value)>, a: Out, b: Out)
    requires |fields| == 2 && fields[0].0 == "a" && fields[1].0 == "b"
    ensures PutAll(map[], fields, [a] + [b]) == map["a" := a, "b" := b]
  {
    assert ([a] + [b])[..1] == [a] && [a][..0] == [];
    assert PutAll(map[], fields[..1][..0], []) == map[];
    assert PutAll(map[], fields[..1], [a]) == map["a" := a];
    assert PutAll(map[], fields, [a] + [b]) == map["a" := a]["b" := b];
  }

  /** The array never contains itself, and still its second use is shown as a cycle. */
  lemma {:induction false} TheArrayLooksCircular(bad: Body, opts: Options)
    requires Bad(bad)
    ensures WellFormed(FakeHeap(bad)) && OrdinaryKeys(FakeHeap(bad), opts)
    ensures SanitizeLogValue(FakeHeap(bad), opts, Ref(0))
            == Done(ORecord(map["a" := OUnserializable(Complaint(bad)), "b" := OSeq([OCircular])]))
    ensures forall walk :: !ClosesCycle(FakeHeap(bad), opts, walk, 0, {})
  {
    hide IsSensitiveKey, Ranks, ClosesCycle, RunAll, PutAll;
    FakeHeapIsWellFormed(bad, opts);
    hide WellFormed, OrdinaryKeys;
    TheFieldsDiffer(bad, opts);
    TheRecord(FakeHeap(bad)[0].body.fields, OUnserializable(Complaint(bad)), OSeq([OCircular]));
    forall walk ensures !ClosesCycle(FakeHeap(bad), opts, walk, 0, {}) {
      FakeHeapHasNoCycle(bad, opts, walk);
    }
  }

  lemma {:induction false} InvalidDateFakesACycle(opts: Options)
    ensures WellFormed(FakeHeap(BAD_DATE)) && OrdinaryKeys(FakeHeap(BAD_DATE), opts)
    ensures SanitizeLogValue(FakeHeap(BAD_DATE), opts, Ref(0))
            == Done(ORecord(map["a" := OUnserializable("Invalid time value"), "b" := OSeq([OCircular])]))
    ensures forall walk :: !ClosesCycle(FakeHeap(BAD_DATE), opts, walk, 0, {})
  {
    hide SanitizeLogValue, WellFormed, OrdinaryKeys, ClosesCycle;
    TheArrayLooksCircular(BAD_DATE, opts);
  }

  /** An object without a constructor does the same; met alone, it makes the sanitizer throw. */
  lemma {:induction false} MissingConstructorFakesACycle(opts: Options, bad: Body)
    requires bad == NULL_CLASS || bad == NO_CLASS
    ensures WellFormed(FakeHeap(bad)) && OrdinaryKeys(FakeHeap(bad), opts)
    ensures SanitizeLogValue(FakeHeap(bad), opts, Ref(0))
            == Done(ORecord(map["a" := OUnserializable(CLASS_ERROR), "b" := OSeq([OCircular])]))
    ensures SanitizeLogValue(FakeHeap(bad), opts, Ref(2)) == Thrown(CLASS_ERROR)
    ensures forall walk :: !ClosesCycle(FakeHeap(bad), opts, walk, 0, {})
  {
    hide Run, RunAll, WellFormed, OrdinaryKeys, ClosesCycle, FakeHeap;
    TheArrayLooksCircular(bad, opts);
    TheObjectThrows(bad, opts, 0, {});
  }
}
