/**
 * The sanitizer as it is written: loops that add to and delete from one shared `seen` set. Each method
 * leaves the result and the set that the recursion of SanitizerModel gives.
 */
module LogSanitizer {
  import opened Wrappers
  import opened SanitizerModel

  lemma RunAllStep(h: Heap, opts: Options, cs: seq<Child>, k: nat, depth: nat, seen: set<nat>, catching: bool)
    requires WellFormed(h) && k < |cs| && forall i | 0 <= i < |cs| :: ValidRef(h, cs[i].value)
    requires RunAll(h, opts, cs[..k], depth, seen, catching).0.AllDone?
    ensures var (before, mid) := RunAll(h, opts, cs[..k], depth, seen, catching);
            var (last, after) := Run(h, opts, cs[k], depth, mid);
            RunAll(h, opts, cs[..k + 1], depth, seen, catching)
            == (if last.Thrown? && !catching then ListThrown(last.message) else AllDone(before.outs + [Caught(last)]),
                after)
  {
    hide Run;
    assert cs[..k + 1][..k] == cs[..k];
  }

  /** An exception on the way is the exception of the whole list. */
  lemma {:induction false} ThrownStaysThrown(h: Heap, opts: Options, cs: seq<Child>, k: nat, depth: nat, seen: set<nat>)
    requires WellFormed(h) && k <= |cs| && forall i | 0 <= i < |cs| :: ValidRef(h, cs[i].value)
    requires RunAll(h, opts, cs[..k], depth, seen, false).0.ListThrown?
    ensures RunAll(h, opts, cs, depth, seen, false) == RunAll(h, opts, cs[..k], depth, seen, false)
    decreases |cs|
  {
    hide Run;
    if k < |cs| {
      assert cs[..|cs| - 1][..k] == cs[..k];
      ThrownStaysThrown(h, opts, cs[..|cs| - 1], k, depth, seen);
    } else {
      assert cs[..k] == cs;
    }
  }

  lemma PutAllStep(first: map<string, Out>, fields: seq<(string, Value)>, outs: seq<Out>, out: Out)
    requires |outs| < |fields|
    ensures PutAll(first, fields, outs + [out]) == PutAll(first, fields, outs)[fields[|outs|].0 := out]
  {
    assert (outs + [out])[..|outs|] == outs;
    PutAllPrefix(first, fields, outs);
  }

  lemma PutAllPrefix(first: map<string, Out>, fields: seq<(string, Value)>, outs: seq<Out>)
    requires |outs| <= |fields|
    ensures PutAll(first, fields[..|outs|], outs) == PutAll(first, fields, outs)
  {
    if outs != [] { assert fields[..|outs|][..|outs| - 1] == fields[..|outs| - 1]; }
  }

  lemma EntryAt(h: Heap, entries: seq<(Value, Value)>, i: nat)
    requires i < |entries|
    ensures |EntryChildren(h, entries)| == 2 * |entries|
    ensures EntryChildren(h, entries)[2 * i] == Child(Unkeyed, entries[i].0)
    ensures EntryChildren(h, entries)[2 * i + 1] == Child(KeyOf(h, entries[i].0), entries[i].1)
  {
    assert 2 * i / 2 == i && 2 * i % 2 == 0;
    assert (2 * i + 1) / 2 == i && (2 * i + 1) % 2 == 1;
  }

  lemma RunNothing(h: Heap, opts: Options, cs: seq<Child>, depth: nat, seen: set<nat>, catching: bool)
    requires WellFormed(h)
    ensures RunAll(h, opts, cs[..0], depth, seen, catching) == (AllDone([]), seen)
  {
  }

  lemma PutNothing(first: map<string, Out>, fields: seq<(string, Value)>)
    ensures PutAll(first, fields, []) == first
  {
  }

  lemma UnfoldContainer(h: Heap, opts: Options, n: nat, depth: nat, seen: set<nat>)
    requires WellFormed(h) && n < |h| && Closed(h, h[n].body) && IsContainer(h, n)
    ensures n in seen ==>
              Run(h, opts, Child(Unkeyed, Ref(n)), depth, seen) == (Done(Refused(h[n].body, OCircular)), seen)
    ensures n !in seen && !Opens(h, h[n].body) ==>
              Run(h, opts, Child(Unkeyed, Ref(n)), depth, seen) == (Thrown(CLASS_ERROR), seen)
    ensures n !in seen && Opens(h, h[n].body) && TooDeep(opts, depth) ==>
              Run(h, opts, Child(Unkeyed, Ref(n)), depth, seen) == (DepthOutcome(h, h[n].body), seen)
    ensures n !in seen && Opens(h, h[n].body) && !TooDeep(opts, depth) ==>
      var (inner, after) := RunAll(h, opts, Children(h, opts, n), depth + 1, seen + {n}, h[n].body.ObjectBody?);
      Run(h, opts, Child(Unkeyed, Ref(n)), depth, seen)
      == if inner.ListThrown? then (Thrown(inner.message), after)
         else (Done(Assemble(h, opts, h[n].body, inner.outs)), after - {n})
  {
    hide RunAll, Assemble, Children, DepthOutcome, ClassOf;
  }

  lemma UnreadableThrows(h: Heap, opts: Options, v: Value, depth: nat, seen: set<nat>)
    requires WellFormed(h) && ValidRef(h, v)
    ensures Run(h, opts, Child(Unreadable, v), depth, seen) == (Thrown(TEXT_ERROR), seen)
  {
  }

  class Sanitizer {
    const heap: Heap
    const options: Options
    var seen: set<nat>

    constructor (heap: Heap, options: Options)
      ensures this.heap == heap && this.options == options && seen == {}
    {
      this.heap, this.options, seen := heap, options, {};
    }

    method SanitizeValue(value: Value, depth: nat, key: Key) returns (r: Outcome)
      requires WellFormed(heap) && ValidRef(heap, value) && !key.Unreadable?
      modifies this`seen
      ensures (r, seen) == Run(heap, options, Child(key, value), depth, old(seen))
      decreases Budget(heap, options, depth, seen), 0, CauseRank(heap, RankOf(heap), value), 1
    {
      hide Assemble, LeafOutcome, Children, IsSensitiveKey, Budget;
      assert Ranks(heap, RankOf(heap));
      if Redacts(options, key) { return Done(ORedacted); }
      if !value.Ref? { return Done(PrimitiveOut(options, value)); }
      var n := value.node;
      if IsLeaf(heap, n) { return LeafOutcome(heap, options, n); }
      if heap[n].body.ErrorBody? {
        r := SanitizeError(n, depth);
      } else if heap[n].body.MapBody? {
        r := SanitizeMap(n, depth);
      } else if heap[n].body.ObjectBody? {
        r := SanitizeObject(n, depth);
      } else if heap[n].body.SetBody? {
        r := SanitizeSet(n, depth);
      } else {
        r := SanitizeArray(n, depth);
      }
    }

    method SanitizeError(n: nat, depth: nat) returns (r: Outcome)
      requires WellFormed(heap) && n < |heap| && HasCause(heap[n].body)
      modifies this`seen
      ensures (r, seen) == Run(heap, options, Child(Unkeyed, Ref(n)), depth, old(seen))
      decreases Budget(heap, options, depth, seen), 0, CauseRank(heap, RankOf(heap), Ref(n)), 0
    {
      hide Budget, IsSensitiveKey;
      assert Ranks(heap, RankOf(heap));
      BudgetFalls(heap, options, depth, seen, seen);
      var output := ErrorFields(options, heap[n].body);
      var cause := SanitizeValue(heap[n].body.cause.value, depth + 1, Keyed("cause"));
      if cause.Thrown? { return cause; }
      output := output["cause" := cause.out];
      return Done(ORecord(output));
    }

    method SanitizeSet(n: nat, depth: nat) returns (r: Outcome)
      requires WellFormed(heap) && n < |heap| && heap[n].body.SetBody? && Closed(heap, heap[n].body)
      modifies this`seen
      ensures (r, seen) == Run(heap, options, Child(Unkeyed, Ref(n)), depth, old(seen))
      decreases Budget(heap, options, depth, seen), 0, 0, 0
    {
      hide Budget, IsSensitiveKey, WellFormed, WithMarker, Run, RunAll;
      var b := heap[n].body;
      UnfoldContainer(heap, options, n, depth, seen);
      if n in seen { return Done(OCircular); }
      if TooDeep(options, depth) { return Done(OMaxDepth("Set size", Some(|b.values|))); }
      BudgetFallsInside(heap, options, depth, seen, n);
      seen := seen + {n};
      var values := SanitizeEach(Prefix(options, MAX_ARRAY_ITEMS, b.values), depth + 1);
      if values.ListThrown? { return Thrown(values.message); }
      seen := seen - {n};
      return Done(ListRecord("Set", "values", WithMarker(options, values.outs, |b.values|), |b.values|));
    }

    method SanitizeArray(n: nat, depth: nat) returns (r: Outcome)
      requires WellFormed(heap) && n < |heap| && heap[n].body.ArrayBody? && Closed(heap, heap[n].body)
      modifies this`seen
      ensures (r, seen) == Run(heap, options, Child(Unkeyed, Ref(n)), depth, old(seen))
      decreases Budget(heap, options, depth, seen), 0, 0, 0
    {
      hide Budget, IsSensitiveKey, WellFormed, WithMarker, Run, RunAll;
      var b := heap[n].body;
      UnfoldContainer(heap, options, n, depth, seen);
      if n in seen { return Done(OSeq([OCircular])); }
      if TooDeep(options, depth) { return Done(OSeq([OMaxDepth("Array length", Some(|b.items|))])); }
      BudgetFallsInside(heap, options, depth, seen, n);
      seen := seen + {n};
      var items := SanitizeEach(Prefix(options, MAX_ARRAY_ITEMS, b.items), depth + 1);
      if items.ListThrown? { return Thrown(items.message); }
      seen := seen - {n};
      return Done(OSeq(WithMarker(options, items.outs, |b.items|)));
    }

    method SanitizeMap(n: nat, depth: nat) returns (r: Outcome)
      requires WellFormed(heap) && n < |heap| && heap[n].body.MapBody? && Closed(heap, heap[n].body)
      modifies this`seen
      ensures (r, seen) == Run(heap, options, Child(Unkeyed, Ref(n)), depth, old(seen))
      decreases Budget(heap, options, depth, seen), 0, 0, 0
    {
      hide Budget, IsSensitiveKey, WellFormed, WithMarker, Run, RunAll, EntryChildren;
      var b := heap[n].body;
      UnfoldContainer(heap, options, n, depth, seen);
      if n in seen { return Done(OCircular); }
      if TooDeep(options, depth) { return Done(OMaxDepth("Map size", Some(|b.entries|))); }
      BudgetFallsInside(heap, options, depth, seen, n);
      seen := seen + {n};
      var entries := SanitizeEntries(Prefix(options, MAX_ARRAY_ITEMS, b.entries), depth + 1);
      if entries.ListThrown? { return Thrown(entries.message); }
      seen := seen - {n};
      return Done(ListRecord("Map", "entries", WithMarker(options, Pairs(entries.outs), |b.entries|), |b.entries|));
    }

    /** The items of a set or an array, one after another; the first exception ends it. */
    method SanitizeEach(items: seq<Value>, depth: nat) returns (r: ListOutcome)
      requires WellFormed(heap) && forall i | 0 <= i < |items| :: ValidRef(heap, items[i])
      modifies this`seen
      ensures (r, seen) == RunAll(heap, options, ItemChildren(items), depth, old(seen), false)
      decreases Budget(heap, options, depth, seen), 1, 0, 0
    {
      hide Budget, WellFormed, Run, RunAll;
      ghost var cs, start := ItemChildren(items), seen;
      var outs: seq<Out> := [];
      RunNothing(heap, options, cs, depth, start, false);
      for i := 0 to |items|
        invariant start <= seen && |outs| == i
        invariant (AllDone(outs), seen) == RunAll(heap, options, cs[..i], depth, start, false)
      {
        BudgetFalls(heap, options, depth, start, seen);
        RunAllStep(heap, options, cs, i, depth, start, false);
        var out := SanitizeValue(items[i], depth, Unkeyed);
        if out.Thrown? {
          ThrownStaysThrown(heap, options, cs, i + 1, depth, start);
          return ListThrown(out.message);
        }
        outs := outs + [out.out];
      }
      assert cs[..|items|] == cs;
      return AllDone(outs);
    }

    /** The entries of a map: each key, then its value judged by that key. */
    method SanitizeEntries(entries: seq<(Value, Value)>, depth: nat) returns (r: ListOutcome)
      requires WellFormed(heap)
      requires forall i | 0 <= i < |entries| :: ValidRef(heap, entries[i].0) && ValidRef(heap, entries[i].1)
      modifies this`seen
      ensures (r, seen) == RunAll(heap, options, EntryChildren(heap, entries), depth, old(seen), false)
      decreases Budget(heap, options, depth, seen), 1, 0, 0
    {
      hide Budget, WellFormed, Run, RunAll;
      ghost var cs, start := EntryChildren(heap, entries), seen;
      assert |cs| == 2 * |entries| && forall i | 0 <= i < |cs| :: ValidRef(heap, cs[i].value);
      hide EntryChildren;
      var outs: seq<Out> := [];
      RunNothing(heap, options, cs, depth, start, false);
      for i := 0 to |entries|
        invariant start <= seen && |outs| == 2 * i
        invariant (AllDone(outs), seen) == RunAll(heap, options, cs[..2 * i], depth, start, false)
      {
        EntryAt(heap, entries, i);
        BudgetFalls(heap, options, depth, start, seen);
        RunAllStep(heap, options, cs, 2 * i, depth, start, false);
        var key := SanitizeValue(entries[i].0, depth, Unkeyed);
        if key.Thrown? {
          ThrownStaysThrown(heap, options, cs, 2 * i + 1, depth, start);
          return ListThrown(key.message);
        }
        BudgetFalls(heap, options, depth, start, seen);
        RunAllStep(heap, options, cs, 2 * i + 1, depth, start, false);
        var text := KeyText(heap, entries[i].0);
        if text == None {
          UnreadableThrows(heap, options, entries[i].1, depth, seen);
          ThrownStaysThrown(heap, options, cs, 2 * i + 2, depth, start);
          return ListThrown(TEXT_ERROR);
        }
        var value := SanitizeValue(entries[i].1, depth, Keyed(text.value));
        if value.Thrown? {
          ThrownStaysThrown(heap, options, cs, 2 * i + 2, depth, start);
          return ListThrown(value.message);
        }
        outs := outs + [key.out] + [value.out];
      }
      assert cs[..2 * |entries|] == cs;
      return AllDone(outs);
    }

    method SanitizeObject(n: nat, depth: nat) returns (r: Outcome)
      requires WellFormed(heap) && n < |heap| && heap[n].body.ObjectBody? && !IsLeaf(heap, n)
               && Closed(heap, heap[n].body)
      modifies this`seen
      ensures (r, seen) == Run(heap, options, Child(Unkeyed, Ref(n)), depth, old(seen))
      decreases Budget(heap, options, depth, seen), 0, 0, 0
    {
      hide Budget, IsSensitiveKey, WellFormed, PutAll, Run, RunAll, SerializedBuffer;
      var b := heap[n].body;
      UnfoldContainer(heap, options, n, depth, seen);
      if n in seen { return Done(OCircular); }
      var typeName := ClassOf(heap, b);
      if typeName == None { return Thrown(CLASS_ERROR); }
      if TooDeep(options, depth) {
        if typeName.value.Symbol? { return Thrown(SYMBOL_ERROR); }
        return NamedDepth(KeyText(heap, typeName.value));
      }
      BudgetFallsInside(heap, options, depth, seen, n);
      seen := seen + {n};
      ghost var start := seen;
      var output := FirstFields(heap, b);
      var visible := Prefix(options, MAX_OBJECT_KEYS, b.fields);
      ghost var cs := Children(heap, options, n);
      assert cs == FieldChildren(visible);
      hide Children, Prefix;
      ghost var outs: seq<Out> := [];
      RunNothing(heap, options, cs, depth + 1, start, true);
      PutNothing(output, b.fields);
      for i := 0 to |visible|
        invariant start <= seen && |outs| == i
        invariant (AllDone(outs), seen) == RunAll(heap, options, cs[..i], depth + 1, start, true)
        invariant output == PutAll(FirstFields(heap, b), b.fields, outs)
      {
        BudgetFalls(heap, options, depth + 1, start, seen);
        RunAllStep(heap, options, cs, i, depth + 1, start, true);
        var value := SanitizeValue(visible[i].1, depth + 1, Keyed(visible[i].0));
        PutAllStep(FirstFields(heap, b), b.fields, outs, Caught(value));
        output := output[visible[i].0 := Caught(value)];
        outs := outs + [Caught(value)];
      }
      assert cs[..|visible|] == cs;
      if options.sanitizeValues && |b.fields| > MAX_OBJECT_KEYS {
        output := output["__truncatedKeys" := OCount(|b.fields| - MAX_OBJECT_KEYS)];
      }
      seen := seen - {n};
      return Done(ORecord(output));
    }
  }

  /** The entry point: a fresh, empty `seen` for every call. */
  method Sanitize(heap: Heap, options: Options, value: Value) returns (r: Outcome)
    requires WellFormed(heap) && ValidRef(heap, value)
    ensures r == SanitizeLogValue(heap, options, value)
  {
    var sanitizer := new Sanitizer(heap, options);
    r := sanitizer.SanitizeValue(value, 0, Unkeyed);
  }
}
