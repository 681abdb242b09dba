/** How each kind of value reads in the output: what is shown of it, what is cut off, and what says so. */
module SanitizerOutput {
  import opened Wrappers
  import opened SanitizerModel
  import opened SanitizerKeys

  // Children one after another.

  /** This is how c is rendered in some of the states the `seen` set has while the containers `open` are open. */
  ghost predicate Renders(h: Heap, opts: Options, c: Child, depth: nat, open: set<nat>, out: Out)
    requires WellFormed(h) && ValidRef(h, c.value)
  {
    exists s | open <= s :: Run(h, opts, c, depth, s).0 == Done(out)
  }

  /** An object's field that throws reads as unserializable. */
  ghost predicate FieldRenders(h: Heap, opts: Options, c: Child, depth: nat, open: set<nat>, out: Out)
    requires WellFormed(h) && ValidRef(h, c.value)
  {
    || Renders(h, opts, c, depth, open, out)
    || exists s, message | open <= s ::
         Run(h, opts, c, depth, s).0 == Thrown(message) && out == OUnserializable(message)
  }

  lemma {:induction false} EachRenders(
    h: Heap, opts: Options, cs: seq<Child>, depth: nat, seen: set<nat>, catching: bool, i: nat)
    requires WellFormed(h) && (forall k | 0 <= k < |cs| :: ValidRef(h, cs[k].value)) && i < |cs|
    requires RunAll(h, opts, cs, depth, seen, catching).0.AllDone?
    ensures var outs := RunAll(h, opts, cs, depth, seen, catching).0.outs;
            && |outs| == |cs| && FieldRenders(h, opts, cs[i], depth, seen, outs[i])
            && (!catching ==> Renders(h, opts, cs[i], depth, seen, outs[i]))
    decreases |cs|
  {
    hide WellFormed, Run, Budget;
    OneOutEach(h, opts, cs, depth, seen, catching);
    var n := |cs| - 1;
    var (before, mid) := RunAll(h, opts, cs[..n], depth, seen, catching);
    OneOutEach(h, opts, cs[..n], depth, seen, catching);
    if i < n {
      EachRenders(h, opts, cs[..n], depth, seen, catching, i);
    } else {
      var last := Run(h, opts, cs[n], depth, mid).0;
      assert RunAll(h, opts, cs, depth, seen, catching).0.outs[n] == Caught(last);
    }
  }

  // Primitive values.

  lemma TextReads(h: Heap, opts: Options, s: string, depth: nat, seen: set<nat>)
    requires WellFormed(h)
    ensures var r := Run(h, opts, Child(Unkeyed, Text(s)), depth, seen).0;
            && r.Done? && r.out.OText?
            && if opts.sanitizeValues && |s| > 256
               then r.out.s[..242] == s[..242] && r.out.s[242..] == "...[truncated]"
               else r.out.s == s
  {
    hide WellFormed;
  }

  lemma PrimitivesRead(h: Heap, opts: Options, text: string, name: string, b: bool, depth: nat, seen: set<nat>)
    requires WellFormed(h)
    ensures Run(h, opts, Child(Unkeyed, Number(text)), depth, seen).0 == Done(OPlain(Number(text)))
    ensures Run(h, opts, Child(Unkeyed, Boolean(b)), depth, seen).0 == Done(OPlain(Boolean(b)))
    ensures Run(h, opts, Child(Unkeyed, Absent(text)), depth, seen).0 == Done(OPlain(Absent(text)))
    ensures Run(h, opts, Child(Unkeyed, BigInt(text)), depth, seen).0 == Done(OText(text + "n"))
    ensures Run(h, opts, Child(Unkeyed, Symbol(text)), depth, seen).0 == Done(OText(text))
    ensures Run(h, opts, Child(Unkeyed, Function(name, text)), depth, seen).0
            == Done(OText(if name == "" then "[Function anonymous]" else "[Function " + name + "]"))
  {
    hide WellFormed;
    assert "[Function " + "anonymous" + "]" == "[Function anonymous]";
  }

  // Lists.

  /** How many of n items are shown. */
  function Shown(opts: Options, n: nat): nat { if opts.sanitizeValues && n > 50 then 50 else n }

  /** The items of a list as shown, with one more that counts the rest if there is any. */
  ghost predicate ReadsAsList(
    h: Heap, opts: Options, items: seq<Value>, depth: nat, open: set<nat>, outs: seq<Out>)
    requires WellFormed(h) && forall i | 0 <= i < |items| :: ValidRef(h, items[i])
  {
    var shown := Shown(opts, |items|);
    && |outs| == (if shown < |items| then shown + 1 else shown)
    && (shown < |items| ==>
          outs[shown] == ORecord(map["type" := OText("TruncatedArray"), "omittedItems" := OCount(|items| - shown)]))
    && forall i | 0 <= i < shown :: Renders(h, opts, Child(Unkeyed, items[i]), depth, open, outs[i])
  }

  lemma ItemsRead(h: Heap, opts: Options, items: seq<Value>, depth: nat, open: set<nat>)
    requires WellFormed(h) && forall i | 0 <= i < |items| :: ValidRef(h, items[i])
    requires RunAll(h, opts, ItemChildren(Prefix(opts, 50, items)), depth, open, false).0.AllDone?
    ensures var outs := RunAll(h, opts, ItemChildren(Prefix(opts, 50, items)), depth, open, false).0.outs;
            ReadsAsList(h, opts, items, depth, open, WithMarker(opts, outs, |items|))
  {
    hide WellFormed, Run, RunAll, Renders;
    var cs := ItemChildren(Prefix(opts, 50, items));
    OneOutEach(h, opts, cs, depth, open, false);
    forall i | 0 <= i < Shown(opts, |items|)
      ensures Renders(h, opts, Child(Unkeyed, items[i]), depth, open, RunAll(h, opts, cs, depth, open, false).0.outs[i])
    {
      EachRenders(h, opts, cs, depth, open, false, i);
    }
  }

  /** A container that is neither open nor too deep is entered. */
  ghost predicate CanEnter(h: Heap, opts: Options, n: nat, depth: nat, seen: set<nat>)
    requires n < |h|
  {
    Closed(h, h[n].body) && n !in seen && (opts.sanitizeValues ==> depth < 8)
  }

  lemma ArrayReads(h: Heap, opts: Options, n: nat, depth: nat, seen: set<nat>)
    requires WellFormed(h) && n < |h| && h[n].body.ArrayBody? && CanEnter(h, opts, n, depth, seen)
    ensures var r := Run(h, opts, Child(Unkeyed, Ref(n)), depth, seen).0;
            r.Done? ==> r.out.OSeq? && ReadsAsList(h, opts, h[n].body.items, depth + 1, seen + {n}, r.out.items)
  {
    hide WellFormed, RunAll, Budget, ReadsAsList, WithMarker, Prefix;
    var cs := Children(h, opts, n);
    if RunAll(h, opts, cs, depth + 1, seen + {n}, false).0.AllDone? {
      ItemsRead(h, opts, h[n].body.items, depth + 1, seen + {n});
    }
  }

  lemma SetReads(h: Heap, opts: Options, n: nat, depth: nat, seen: set<nat>)
    requires WellFormed(h) && n < |h| && h[n].body.SetBody? && CanEnter(h, opts, n, depth, seen)
    ensures var r := Run(h, opts, Child(Unkeyed, Ref(n)), depth, seen).0;
            r.Done? ==>
              && r.out.ORecord? && r.out.fields.Keys == {"type", "size", "values"}
              && r.out.fields["type"] == OText("Set") && r.out.fields["size"] == OCount(|h[n].body.values|)
              && r.out.fields["values"].OSeq?
              && ReadsAsList(h, opts, h[n].body.values, depth + 1, seen + {n}, r.out.fields["values"].items)
  {
    hide WellFormed, RunAll, Budget, ReadsAsList, WithMarker, Prefix;
    var cs := Children(h, opts, n);
    if RunAll(h, opts, cs, depth + 1, seen + {n}, false).0.AllDone? {
      ItemsRead(h, opts, h[n].body.values, depth + 1, seen + {n});
    }
  }

  /** An entry of a map: its key, and its value as judged by that key's text. */
  ghost predicate EntryReads(h: Heap, opts: Options, entry: (Value, Value), depth: nat, open: set<nat>, out: Out)
    requires WellFormed(h) && ValidRef(h, entry.0) && ValidRef(h, entry.1)
  {
    && out.OSeq? && |out.items| == 2 && KeyText(h, entry.0).Some?
    && Renders(h, opts, Child(Unkeyed, entry.0), depth, open, out.items[0])
    && Renders(h, opts, Child(Keyed(KeyText(h, entry.0).value), entry.1), depth, open, out.items[1])
  }

  lemma ChildrenOfEntry(h: Heap, entries: seq<(Value, Value)>, i: nat)
    requires i < |entries|
    ensures |EntryChildren(h, entries)| == 2 * |entries|
    ensures EntryChildren(h, entries)[2 * i] == Child(Unkeyed, entries[i].0)
    ensures EntryChildren(h, entries)[2 * i + 1] == Child(KeyOf(h, entries[i].0), entries[i].1)
  {
    assert 2 * i / 2 == i && 2 * i % 2 == 0;
    assert (2 * i + 1) / 2 == i && (2 * i + 1) % 2 == 1;
  }

  lemma UnreadableNeverRenders(h: Heap, opts: Options, v: Value, depth: nat, open: set<nat>, out: Out)
    requires WellFormed(h) && ValidRef(h, v)
    ensures !Renders(h, opts, Child(Unreadable, v), depth, open, out)
  {
    hide WellFormed;
  }

  lemma PairReads(
    h: Heap, opts: Options, entries: seq<(Value, Value)>, depth: nat, open: set<nat>, outs: seq<Out>, i: nat)
    requires WellFormed(h) && i < |entries|
    requires forall k | 0 <= k < |entries| :: ValidRef(h, entries[k].0) && ValidRef(h, entries[k].1)
    requires RunAll(h, opts, EntryChildren(h, entries), depth, open, false).0 == AllDone(outs)
    ensures |outs| == 2 * |entries| && EntryReads(h, opts, entries[i], depth, open, Pairs(outs)[i])
  {
    hide WellFormed, Run, RunAll, Renders;
    var cs := EntryChildren(h, entries);
    ChildrenOfEntry(h, entries, i);
    hide EntryChildren;
    EachRenders(h, opts, cs, depth, open, false, 2 * i);
    EachRenders(h, opts, cs, depth, open, false, 2 * i + 1);
    if KeyText(h, entries[i].0) == None {
      UnreadableNeverRenders(h, opts, entries[i].1, depth, open, outs[2 * i + 1]);
    }
  }

  lemma MapReads(h: Heap, opts: Options, n: nat, depth: nat, seen: set<nat>)
    requires WellFormed(h) && n < |h| && h[n].body.MapBody? && CanEnter(h, opts, n, depth, seen)
    ensures var r, entries := Run(h, opts, Child(Unkeyed, Ref(n)), depth, seen).0, h[n].body.entries;
            var shown := Shown(opts, |entries|);
            r.Done? ==>
              && r.out.ORecord? && r.out.fields.Keys == {"type", "size", "entries"}
              && r.out.fields["type"] == OText("Map") && r.out.fields["size"] == OCount(|entries|)
              && r.out.fields["entries"].OSeq?
              && var outs := r.out.fields["entries"].items;
              && |outs| == (if shown < |entries| then shown + 1 else shown)
              && (shown < |entries| ==>
                    outs[shown]
                    == ORecord(map["type" := OText("TruncatedArray"), "omittedItems" := OCount(|entries| - shown)]))
              && forall i | 0 <= i < shown :: EntryReads(h, opts, entries[i], depth + 1, seen + {n}, outs[i])
  {
    hide WellFormed, RunAll, Budget, EntryReads, EntryChildren;
    var all := h[n].body.entries;
    var entries := Prefix(opts, MAX_ARRAY_ITEMS, all);
    var list := RunAll(h, opts, Children(h, opts, n), depth + 1, seen + {n}, false).0;
    if list.AllDone? {
      EntryCount(h, entries);
      OneOutEach(h, opts, Children(h, opts, n), depth + 1, seen + {n}, false);
      forall i | 0 <= i < Shown(opts, |all|)
        ensures |list.outs| == 2 * |entries|
                && EntryReads(h, opts, all[i], depth + 1, seen + {n}, Pairs(list.outs)[i])
      {
        PairReads(h, opts, entries, depth + 1, seen + {n}, list.outs, i);
      }
    }
  }

  lemma EntryCount(h: Heap, entries: seq<(Value, Value)>)
    ensures |EntryChildren(h, entries)| == 2 * |entries|
  {
  }

  // Objects.

  function Names(fields: seq<(string, Value)>): set<string> { set i | 0 <= i < |fields| :: fields[i].0 }

  ghost predicate DistinctNames(fields: seq<(string, Value)>) {
    forall i, j | 0 <= i < j < |fields| :: fields[i].0 != fields[j].0
  }

  lemma {:induction false} PutKeys(first: map<string, Out>, fields: seq<(string, Value)>, outs: seq<Out>)
    requires |outs| <= |fields|
    ensures PutAll(first, fields, outs).Keys == first.Keys + Names(fields[..|outs|])
    decreases |outs|
  {
    if outs == [] {
      assert fields[..0] == [];
    } else {
      var n := |outs| - 1;
      PutKeys(first, fields[..n], outs[..n]);
      assert fields[..n][..n] == fields[..n];
      assert Names(fields[..n + 1]) == Names(fields[..n]) + {fields[n].0} by {
        assert forall i | 0 <= i < n :: fields[..n][i] == fields[..n + 1][i];
        assert fields[..n + 1][n] == fields[n];
        forall k | k in Names(fields[..n]) ensures k in Names(fields[..n + 1]) {
          var i :| 0 <= i < |fields[..n]| && fields[..n][i].0 == k;
          assert fields[..n + 1][i].0 == k;
        }
      }
    }
  }

  lemma {:induction false} PutGets(first: map<string, Out>, fields: seq<(string, Value)>, outs: seq<Out>, i: nat)
    requires i < |outs| <= |fields| && DistinctNames(fields[..|outs|])
    ensures fields[i].0 in PutAll(first, fields, outs) && PutAll(first, fields, outs)[fields[i].0] == outs[i]
    decreases |outs|
  {
    var n := |outs| - 1;
    assert forall k | 0 <= k <= n :: fields[..|outs|][k] == fields[k];
    if i < n {
      assert forall k | 0 <= k < n :: fields[..n][..n][k] == fields[k];
      PutGets(first, fields[..n], outs[..n], i);
    }
  }

  lemma {:induction false} PutLeaves(first: map<string, Out>, fields: seq<(string, Value)>, outs: seq<Out>, k: string)
    requires |outs| <= |fields| && k in first && k !in Names(fields[..|outs|])
    ensures k in PutAll(first, fields, outs) && PutAll(first, fields, outs)[k] == first[k]
    decreases |outs|
  {
    if outs != [] {
      var n := |outs| - 1;
      forall i | 0 <= i <= n ensures fields[i].0 != k {
        assert fields[..|outs|][i].0 in Names(fields[..|outs|]);
      }
      assert fields[..n][..n] == fields[..n];
      PutLeaves(first, fields[..n], outs[..n], k);
    }
  }

  lemma {:induction false} FieldIsFirst(fields: seq<(string, Value)>, name: string)
    ensures match Field(fields, name)
            case Some(v) => exists i | 0 <= i < |fields| :: fields[i] == (name, v) && name !in Names(fields[..i])
            case None => name !in Names(fields)
  {
    if fields == [] {
    } else if fields[0].0 == name {
      assert fields[0] == (name, fields[0].1) && name !in Names(fields[..0]);
    } else {
      FieldIsFirst(fields[1..], name);
      if Field(fields, name).Some? {
        var v := Field(fields, name).value;
        var i :| 0 <= i < |fields[1..]| && fields[1..][i] == (name, v) && name !in Names(fields[1..][..i]);
        var head := fields[..i + 1];
        forall k | 0 <= k < |head| ensures head[k].0 != name {
          if k > 0 { assert fields[1..][..i][k - 1].0 in Names(fields[1..][..i]); }
        }
        assert fields[i + 1] == (name, v);
      } else {
        forall k | 0 <= k < |fields| ensures fields[k].0 != name {
          if k > 0 { assert fields[1..][k - 1].0 in Names(fields[1..]); }
        }
      }
    }
  }

  /** What an object calls its class: what its own `constructor` says, else what its class does. */
  lemma ClassReads(h: Heap, b: Body)
    requires b.ObjectBody?
    ensures "constructor" !in Names(b.fields) ==> ClassOf(h, b) == b.className
    ensures forall i | 0 <= i < |b.fields| && b.fields[i].0 == "constructor"
                       && "constructor" !in Names(b.fields[..i]) ::
              match b.fields[i].1
              case Absent(_) => ClassOf(h, b) == None
              case Function(name, _) => ClassOf(h, b) == Some(Text(name))
              case Ref(n) =>
                n < |h| ==>
                  if h[n].body.ErrorBody? then ClassOf(h, b) == Some(Text(h[n].body.name))
                  else if !h[n].body.ObjectBody? then ClassOf(h, b) == Some(Absent("undefined"))
                  else if "name" in Names(h[n].body.fields)
                  then exists j | 0 <= j < |h[n].body.fields| ::
                         ClassOf(h, b) == Some(h[n].body.fields[j].1) && h[n].body.fields[j].0 == "name"
                  else ClassOf(h, b) == Some(Absent("undefined"))
              case _ => ClassOf(h, b) == Some(Absent("undefined"))
  {
    hide Field;
    FieldIsFirst(b.fields, "constructor");
    forall i | 0 <= i < |b.fields| && b.fields[i].0 == "constructor" && "constructor" !in Names(b.fields[..i])
      ensures Field(b.fields, "constructor") == Some(b.fields[i].1)
    {
      FirstIsField(b.fields, i);
    }
    forall n | 0 <= n < |h| && h[n].body.ObjectBody?
      ensures match Field(h[n].body.fields, "name")
              case Some(v) => exists j | 0 <= j < |h[n].body.fields| :: h[n].body.fields[j] == ("name", v)
              case None => "name" !in Names(h[n].body.fields)
    {
      FieldIsFirst(h[n].body.fields, "name");
    }
  }

  lemma {:induction false} FirstIsField(fields: seq<(string, Value)>, i: nat)
    requires i < |fields| && fields[i].0 !in Names(fields[..i])
    ensures Field(fields, fields[i].0) == Some(fields[i].1)
  {
    if i > 0 {
      assert fields[..i][0].0 in Names(fields[..i]);
      var head := fields[1..][..i - 1];
      forall k | 0 <= k < |head| ensures head[k].0 != fields[i].0 {
        assert fields[..i][k + 1].0 in Names(fields[..i]);
      }
      FirstIsField(fields[1..], i - 1);
    }
  }

  function ShownFields(opts: Options, n: nat): nat { if opts.sanitizeValues && n > 100 then 100 else n }

  lemma FieldsRead(
    h: Heap, opts: Options, first: map<string, Out>, fields: seq<(string, Value)>, depth: nat, open: set<nat>)
    requires WellFormed(h) && forall i | 0 <= i < |fields| :: ValidRef(h, fields[i].1)
    ensures var cs, shown := FieldChildren(Prefix(opts, 100, fields)), ShownFields(opts, |fields|);
            var put := PutAll(first, fields, RunAll(h, opts, cs, depth, open, true).0.outs);
            && put.Keys == first.Keys + Names(fields[..shown])
            && (forall k | k in first && k !in Names(fields[..shown]) :: put[k] == first[k])
            && (DistinctNames(fields[..shown]) ==>
                  forall i | 0 <= i < shown ::
                    FieldRenders(h, opts, Child(Keyed(fields[i].0), fields[i].1), depth, open, put[fields[i].0]))
  {
    hide WellFormed, Run, RunAll, PutAll, FieldRenders;
    var cs, shown := FieldChildren(Prefix(opts, 100, fields)), ShownFields(opts, |fields|);
    var outs := RunAll(h, opts, cs, depth, open, true).0.outs;
    OneOutEach(h, opts, cs, depth, open, true);
    PutKeys(first, fields, outs);
    forall k | k in first && k !in Names(fields[..shown]) ensures PutAll(first, fields, outs)[k] == first[k] {
      PutLeaves(first, fields, outs, k);
    }
    if DistinctNames(fields[..shown]) {
      forall i | 0 <= i < shown
        ensures FieldRenders(h, opts, Child(Keyed(fields[i].0), fields[i].1), depth, open,
                             PutAll(first, fields, outs)[fields[i].0])
      {
        EachRenders(h, opts, cs, depth, open, true, i);
        PutGets(first, fields, outs, i);
      }
    }
  }

  /** The fields of an object as shown, its class name if it is not a plain object, and a count of the rest. */
  lemma ObjectReads(h: Heap, opts: Options, n: nat, depth: nat, seen: set<nat>, type_: Value)
    requires WellFormed(h) && n < |h| && h[n].body.ObjectBody? && !IsLeaf(h, n) && CanEnter(h, opts, n, depth, seen)
    requires ClassOf(h, h[n].body) == Some(type_)
    ensures var r, fields := Run(h, opts, Child(Unkeyed, Ref(n)), depth, seen).0, h[n].body.fields;
            var shown := ShownFields(opts, |fields|);
            && r.Done? && r.out.ORecord?
            && r.out.fields.Keys == Names(fields[..shown]) + (if type_ == Text("Object") then {} else {"type"})
                                    + (if shown < |fields| then {"__truncatedKeys"} else {})
            && (shown < |fields| ==> r.out.fields["__truncatedKeys"] == OCount(|fields| - shown))
            && (type_ != Text("Object") && "type" !in Names(fields[..shown]) ==>
                  match type_
                  case Text(s) => r.out.fields["type"] == OText(s)
                  case Ref(m) =>
                    m < |h| ==> r.out.fields["type"].ORaw? && r.out.fields["type"].node == m
                                && m in r.out.fields["type"].exposed
                  case _ => r.out.fields["type"] == OPlain(type_))
            && (DistinctNames(fields[..shown]) ==>
                  forall i | 0 <= i < shown && (shown < |fields| ==> fields[i].0 != "__truncatedKeys") ::
                    FieldRenders(h, opts, Child(Keyed(fields[i].0), fields[i].1), depth + 1, seen + {n},
                                 r.out.fields[fields[i].0]))
  {
    hide WellFormed, RunAll, Budget, PutAll, ClassOf, FieldRenders, Reached, Names, DistinctNames, SerializedBuffer;
    FieldsRead(h, opts, FirstFields(h, h[n].body), h[n].body.fields, depth + 1, seen + {n});
  }

  // A sensitive field or entry reads as redacted, whatever is there.

  lemma SensitiveRendersRedacted(h: Heap, opts: Options, key: string, v: Value, depth: nat, open: set<nat>, out: Out)
    requires WellFormed(h) && ValidRef(h, v) && opts.sanitizeValues && SpellsAPart(key)
    ensures FieldRenders(h, opts, Child(Keyed(key), v), depth, open, out) ==> out == ORedacted
  {
    hide WellFormed, Run, SpellsAPart;
    forall s ensures Run(h, opts, Child(Keyed(key), v), depth, s).0 == Done(ORedacted) {
      RedactedIffSpelled(h, opts, key, v, depth, s);
    }
  }

  /** With values sanitized, every shown field whose name spells a listed part reads as redacted. */
  lemma SensitiveFieldIsRedacted(h: Heap, opts: Options, n: nat, depth: nat, seen: set<nat>, i: nat)
    requires WellFormed(h) && n < |h| && h[n].body.ObjectBody? && !IsLeaf(h, n) && CanEnter(h, opts, n, depth, seen)
    requires ClassOf(h, h[n].body).Some? && opts.sanitizeValues
    requires var fields := h[n].body.fields;
             && i < ShownFields(opts, |fields|) && DistinctNames(fields[..ShownFields(opts, |fields|)])
             && SpellsAPart(fields[i].0) && fields[i].0 != "__truncatedKeys"
    ensures var r := Run(h, opts, Child(Unkeyed, Ref(n)), depth, seen).0;
            && r.Done? && r.out.ORecord? && h[n].body.fields[i].0 in r.out.fields
            && r.out.fields[h[n].body.fields[i].0] == ORedacted
  {
    hide WellFormed, Run, ClassOf, FieldRenders, SpellsAPart, IsLeaf, DistinctNames;
    ObjectReads(h, opts, n, depth, seen, ClassOf(h, h[n].body).value);
    var r, fields := Run(h, opts, Child(Unkeyed, Ref(n)), depth, seen).0, h[n].body.fields;
    var shown := ShownFields(opts, |fields|);
    assert fields[..shown][i].0 in Names(fields[..shown]);
    SensitiveRendersRedacted(
      h, opts, fields[i].0, fields[i].1, depth + 1, seen + {n}, r.out.fields[fields[i].0]);
  }

  /** And so does every shown value of a map whose key's text does. */
  lemma SensitiveEntryIsRedacted(h: Heap, opts: Options, n: nat, depth: nat, seen: set<nat>, i: nat)
    requires WellFormed(h) && n < |h| && h[n].body.MapBody? && CanEnter(h, opts, n, depth, seen)
    requires opts.sanitizeValues && i < Shown(opts, |h[n].body.entries|)
    requires var text := KeyText(h, h[n].body.entries[i].0); text.Some? && SpellsAPart(text.value)
    ensures var r := Run(h, opts, Child(Unkeyed, Ref(n)), depth, seen).0;
            r.Done? ==>
              && r.out.ORecord? && "entries" in r.out.fields && r.out.fields["entries"].OSeq?
              && i < |r.out.fields["entries"].items|
              && var pair := r.out.fields["entries"].items[i];
                 pair.OSeq? && |pair.items| == 2 && pair.items[1] == ORedacted
  {
    hide WellFormed, Run, SpellsAPart, Renders;
    MapReads(h, opts, n, depth, seen);
    var r := Run(h, opts, Child(Unkeyed, Ref(n)), depth, seen).0;
    if r.Done? {
      var entry, pair := h[n].body.entries[i], r.out.fields["entries"].items[i];
      SensitiveRendersRedacted(
        h, opts, KeyText(h, entry.0).value, entry.1, depth + 1, seen + {n}, pair.items[1]);
    }
  }

  /** The text a map key is judged by. */
  lemma KeyTextsRead(h: Heap, s: string, t: string, n: nat)
    ensures KeyText(h, Text(s)) == KeyText(h, Number(s)) == KeyText(h, Absent(s)) == KeyText(h, BigInt(s))
         == KeyText(h, Symbol(s)) == KeyText(h, Function(t, s)) == Some(s)
    ensures KeyText(h, Boolean(true)) == Some("true") && KeyText(h, Boolean(false)) == Some("false")
    ensures n < |h| ==> KeyText(h, Ref(n)) == h[n].text
  {
  }

  // What is not entered, and what is rendered on the spot.

  /** A container that lies inside itself, or that is too deep. */
  lemma RefusedReads(h: Heap, opts: Options, n: nat, depth: nat, seen: set<nat>)
    requires WellFormed(h) && n < |h| && IsContainer(h, n)
    requires n in seen || (opts.sanitizeValues && depth >= 8)
    ensures var r := Run(h, opts, Child(Unkeyed, Ref(n)), depth, seen);
            && r.1 == seen
            && match h[n].body
               case ArrayBody(items) =>
                 r.0 == Done(OSeq([if n in seen then OCircular else OMaxDepth("Array length", Some(|items|))]))
               case SetBody(values) =>
                 r.0 == Done(if n in seen then OCircular else OMaxDepth("Set size", Some(|values|)))
               case MapBody(entries) =>
                 r.0 == Done(if n in seen then OCircular else OMaxDepth("Map size", Some(|entries|)))
               case ObjectBody(_, _) =>
                 if n in seen then r.0 == Done(OCircular)
                 else
                   (match ClassOf(h, h[n].body)
                    case Some(Text(name)) => r.0 == Done(OMaxDepth(name, None))
                    case Some(Absent(text)) => r.0 == Done(OMaxDepth(text, None))
                    case Some(Symbol(_)) => r.0.Thrown?
                    case None => r.0.Thrown?
                    case _ => true)
               case _ => true
  {
    hide WellFormed, RunAll, Budget, ClassOf, SerializedBuffer;
  }

  /** An error: its class, name, message and stack, long texts cut, and its cause one level down. */
  lemma ErrorReads(h: Heap, opts: Options, n: nat, depth: nat, seen: set<nat>)
    requires WellFormed(h) && n < |h| && h[n].body.ErrorBody? && Closed(h, h[n].body)
    ensures var r, b := Run(h, opts, Child(Unkeyed, Ref(n)), depth, seen).0, h[n].body;
            r.Done? ==>
              && r.out.ORecord?
              && r.out.fields.Keys == {"type", "name", "message"} + (if b.stack.Some? then {"stack"} else {})
                                      + (if HasCause(b) then {"cause"} else {})
              && r.out.fields["type"] == OText(b.constructorName) && r.out.fields["name"] == OText(b.name)
              && r.out.fields["message"] == ShownText(opts, b.message)
              && (b.stack.Some? ==> r.out.fields["stack"] == ShownText(opts, b.stack.value))
              && (HasCause(b) ==>
                    Renders(h, opts, Child(Keyed("cause"), b.cause.value), depth + 1, seen, r.out.fields["cause"]))
  {
    hide WellFormed, RunAll, Budget, IsSensitiveKey;
    TextIsShown(opts, h[n].body.message);
    if h[n].body.stack.Some? { TextIsShown(opts, h[n].body.stack.value); }
  }

  /** A text as it is shown: the first 242 of more than 256 characters, and a note that it was cut. */
  function ShownText(opts: Options, s: string): Out {
    if opts.sanitizeValues && |s| > 256 then OText(s[..242] + "...[truncated]") else OText(s)
  }

  lemma TextIsShown(opts: Options, s: string)
    ensures OText(Truncated(opts, s)) == ShownText(opts, s)
  {
  }

  /** Sixteen bytes of binary data, each as two hexadecimal digits, how many there are, and whether that is all. */
  lemma BinaryReads(h: Heap, opts: Options, n: nat, depth: nat, seen: set<nat>)
    requires WellFormed(h) && n < |h| && h[n].body.BinaryBody?
    ensures var r, b := Run(h, opts, Child(Unkeyed, Ref(n)), depth, seen).0, h[n].body;
            && r.Done?
            && if !opts.summarizeBinary then r.out == ORawBytes(b.kind, b.bytes)
               else
                 && r.out.OBinary? && r.out.kind == b.kind && r.out.byteLength == |b.bytes|
                 && (r.out.truncated <==> |b.bytes| > 16)
                 && |r.out.preview| == (if |b.bytes| > 16 then 16 else |b.bytes|)
                 && forall i | 0 <= i < |r.out.preview| :: IsHexOf(r.out.preview[i], b.bytes[i])
  {
    hide WellFormed, RunAll, Budget;
  }

  const HEX_DIGITS := "0123456789abcdef"

  ghost predicate IsHexOf(v: Value, b: Byte) {
    && v.Number? && |v.text| == 2
    && exists hi, lo | 0 <= hi < 16 && 0 <= lo < 16 ::
         v.text[0] == HEX_DIGITS[hi] && v.text[1] == HEX_DIGITS[lo] && 16 * hi + lo == b
  }

  lemma DateReads(h: Heap, opts: Options, n: nat, depth: nat, seen: set<nat>)
    requires WellFormed(h) && n < |h| && h[n].body.DateBody?
    ensures var r := Run(h, opts, Child(Unkeyed, Ref(n)), depth, seen);
            r == (match h[n].body.iso case Some(text) => (Done(OText(text)), seen)
                                      case None => (Thrown("Invalid time value"), seen))
  {
    hide WellFormed, RunAll, Budget;
  }

  /** What looks like a serialized Buffer: how long its data is, and the numbers among the first sixteen items. */
  lemma SerializedBufferReads(h: Heap, opts: Options, n: nat, m: nat, depth: nat, seen: set<nat>)
    requires WellFormed(h) && n < |h| && m < |h| && h[n].body.ObjectBody? && h[m].body.ArrayBody?
    requires var fields := h[n].body.fields;
             exists i, j | 0 <= i < |fields| && 0 <= j < |fields| ::
               && fields[i] == ("type", Text("Buffer")) && "type" !in Names(fields[..i])
               && fields[j] == ("data", Ref(m)) && "data" !in Names(fields[..j])
    ensures var r, items := Run(h, opts, Child(Unkeyed, Ref(n)), depth, seen).0, h[m].body.items;
            && r.Done?
            && if !opts.summarizeBinary then r.out.ORawBuffer? && r.out.data == m
               else
                 && r.out.OBinary? && r.out.kind == "Buffer" && r.out.byteLength == |items|
                 && (r.out.truncated <==> |items| > 16)
                 && (forall v | v in r.out.preview :: v.Number?)
                 && multiset(r.out.preview) <= multiset(if |items| > 16 then items[..16] else items)
                 && (forall v | v in (if |items| > 16 then items[..16] else items) && v.Number? :: v in r.out.preview)
  {
    hide WellFormed, RunAll, Budget, Field, Numbers, Exposed;
    var fields := h[n].body.fields;
    var i, j :| 0 <= i < |fields| && 0 <= j < |fields|
                && fields[i] == ("type", Text("Buffer")) && "type" !in Names(fields[..i])
                && fields[j] == ("data", Ref(m)) && "data" !in Names(fields[..j]);
    FirstIsField(fields, i);
    FirstIsField(fields, j);
    var items := h[m].body.items;
    NumbersAmong(if |items| > 16 then items[..16] else items);
  }

  lemma {:induction false} NumbersAmong(items: seq<Value>)
    ensures (forall v | v in Numbers(items) :: v.Number?) && forall v | v in items && v.Number? :: v in Numbers(items)
    ensures multiset(Numbers(items)) <= multiset(items)
  {
    if items != [] {
      assert items == [items[0]] + items[1..];
      NumbersAmong(items[1..]);
    }
  }
}
