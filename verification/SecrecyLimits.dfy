/**
 * Exactly when secrets are hidden: a graph whose secrets can be told from the output is one in which a
 * node hands over something that leads to a secret, and every such graph is told.
 */
module SecrecyLimits {
  import opened Wrappers
  import opened SanitizerModel
  import opened SanitizerSecrecy

  ghost predicate Comparable(h1: Heap, h2: Heap, p: set<nat>, v: Value) {
    && WellFormed(h1) && WellFormed(h2) && ValidRef(h1, v) && ValidRef(h2, v)
    && SameOutsideSecrets(h1, h2, p) && Public(v, p)
  }

  /** No other graph that agrees with h outside its secrets is rendered differently. */
  ghost predicate Hides(h: Heap, p: set<nat>, opts: Options) {
    forall h2, v | Comparable(h, h2, p, v) :: SanitizeLogValue(h, opts, v) == SanitizeLogValue(h2, opts, v)
  }

  /** The nodes of p refer outside p under sensitive keys only. */
  ghost predicate SelfContained(h: Heap, p: set<nat>) { WellFormed(h) && SameOutsideSecrets(h, h, p) }

  // Another secret in the place of one.

  predicate SecretAt(h: Heap, b: Body, i: nat) {
    match b
    case MapBody(entries) => i < |entries| && Sensitive(KeyOf(h, entries[i].0))
    case ObjectBody(_, fields) => i < |fields| && IsSensitiveKey(fields[i].0)
    case _ => false
  }

  function SecretOf(h: Heap, b: Body, i: nat): Value
    requires SecretAt(h, b, i)
  {
    if b.MapBody? then b.entries[i].1 else b.fields[i].1
  }

  function WithSecret(h: Heap, b: Body, i: nat, v: Value): Body
    requires SecretAt(h, b, i)
  {
    if b.MapBody? then MapBody(b.entries[i := (b.entries[i].0, v)])
    else ObjectBody(b.className, b.fields[i := (b.fields[i].0, v)])
  }

  /** The graph with another text as the i-th secret of node k. */
  function Swapped(h: Heap, k: nat, i: nat, text: string): Heap
    requires k < |h| && SecretAt(h, h[k].body, i)
  {
    h[k := Node(h[k].text, WithSecret(h, h[k].body, i, Text(text)))]
  }

  lemma SwappedSize(h: Heap, k: nat, i: nat, text: string)
    requires k < |h| && SecretAt(h, h[k].body, i)
    ensures |Swapped(h, k, i, text)| == |h|
  {
  }

  lemma SwappedKeysAlike(h: Heap, k: nat, i: nat, text: string)
    requires k < |h| && SecretAt(h, h[k].body, i)
    ensures forall v :: KeyText(Swapped(h, k, i, text), v) == KeyText(h, v)
  {
  }

  lemma SwappedIsMaskedAlike(h: Heap, k: nat, i: nat, text: string)
    requires k < |h| && SecretAt(h, h[k].body, i) && Closed(h, h[k].body)
    ensures var t := Swapped(h, k, i, text);
            Closed(t, t[k].body) && Masked(t, t[k].body) == Masked(h, h[k].body)
  {
    hide IsSensitiveKey, KeyText;
    SwappedKeysAlike(h, k, i, text);
    var t := Swapped(h, k, i, text);
    if h[k].body.MapBody? {
      assert MaskedEntries(t, t[k].body.entries) == MaskedEntries(h, h[k].body.entries);
    } else {
      assert MaskedFields(t[k].body.fields) == MaskedFields(h[k].body.fields);
    }
  }

  lemma OthersAreMaskedAlike(h: Heap, k: nat, i: nat, text: string, n: nat)
    requires k < |h| && SecretAt(h, h[k].body, i) && n < |h| && n != k && Closed(h, h[n].body)
    ensures var t := Swapped(h, k, i, text);
            t[n] == h[n] && Closed(t, t[n].body) && Masked(t, t[n].body) == Masked(h, h[n].body)
  {
    hide IsSensitiveKey, KeyText;
    SwappedKeysAlike(h, k, i, text);
    var t := Swapped(h, k, i, text);
    if h[n].body.MapBody? {
      assert MaskedEntries(t, h[n].body.entries) == MaskedEntries(h, h[n].body.entries);
    }
  }

  lemma SwappedIsWellFormed(h: Heap, k: nat, i: nat, text: string)
    requires WellFormed(h) && k < |h| && SecretAt(h, h[k].body, i)
    ensures WellFormed(Swapped(h, k, i, text))
  {
    hide IsSensitiveKey, KeyText, Masked;
    var t := Swapped(h, k, i, text);
    assert Ranks(h, RankOf(h));
    SwappedIsMaskedAlike(h, k, i, text);
    forall n | 0 <= n < |t| ensures Closed(t, t[n].body) {
      if n != k { OthersAreMaskedAlike(h, k, i, text, n); }
    }
    hide Closed;
    assert Ranks(t, RankOf(h));
  }

  lemma SwappedIsComparable(h: Heap, p: set<nat>, k: nat, i: nat, text: string, n: nat)
    requires SelfContained(h, p) && k < |h| && SecretAt(h, h[k].body, i) && n in p
    ensures Comparable(h, Swapped(h, k, i, text), p, Ref(n))
  {
    hide IsSensitiveKey, KeyText, Masked, Closed, LeadsInto, WellFormed;
    var t := Swapped(h, k, i, text);
    SwappedIsWellFormed(h, k, i, text);
    forall m | m in p ensures SameNode(h, t, p, m) {
      assert SameNode(h, h, p, m);
      if m == k { SwappedIsMaskedAlike(h, k, i, text); } else { OthersAreMaskedAlike(h, k, i, text, m); }
    }
    assert SameNode(h, t, p, n);
  }

  /** A node can be reached without passing through itself. */
  lemma StillReached(h: Heap, k: nat, i: nat, text: string, m: nat)
    requires k < |h| && SecretAt(h, h[k].body, i) && m < |h| && k in Reached(h, {m})
    ensures k in Reached(Swapped(h, k, i, text), {m})
  {
    hide Reached, SecretAt, Swapped, ClosedUnder;
    SwappedSize(h, k, i, text);
    var r := Reached(Swapped(h, k, i, text), {m});
    if k !in r { ClosedWithout(h, k, i, text, r); }
  }

  lemma ClosedWithout(h: Heap, k: nat, i: nat, text: string, r: set<nat>)
    requires k < |h| && SecretAt(h, h[k].body, i) && k !in r && ClosedUnder(Swapped(h, k, i, text), r)
    ensures ClosedUnder(h, r)
  {
    hide IsSensitiveKey, Held, SecretAt, WithSecret;
    var t := Swapped(h, k, i, text);
    forall j | j in Successors(h, r) ensures j in r {
      var n, v :| n in r && n < |h| && v in Held(h[n].body) && v.Ref? && v.node < |h| && v.node == j;
      assert t[n] == h[n];
      assert j in Successors(t, r);
    }
  }

  lemma SwappedIsSeen(h: Heap, k: nat, i: nat, text: string, m: nat)
    requires k < |h| && SecretAt(h, h[k].body, i) && m < |h| && k in Reached(h, {m})
    requires SecretOf(h, h[k].body, i) != Text(text)
    ensures Exposed(Swapped(h, k, i, text), m) != Exposed(h, m)
  {
    hide IsSensitiveKey, Reached;
    StillReached(h, k, i, text, m);
    var t := Swapped(h, k, i, text);
    assert t[k] != h[k] by {
      if h[k].body.MapBody? {
        assert t[k].body.entries[i] != h[k].body.entries[i];
      } else {
        assert t[k].body.fields[i] != h[k].body.fields[i];
      }
    }
    assert Exposed(t, m)[k] == t[k] && Exposed(h, m)[k] == h[k];
  }

  // What is handed over is shown.

  /** The part of an output that shows a node as it is. */
  function Shown(r: Outcome): Option<map<nat, Node>> {
    match r
    case Done(ORawBuffer(_, exposed)) => Some(exposed)
    case Done(ORecord(fields)) =>
      if "type" in fields && fields["type"].ORaw? then Some(fields["type"].exposed) else None
    case _ => None
  }

  lemma {:induction false} NotPutIsKept(
    first: map<string, Out>, fields: seq<(string, Value)>, outs: seq<Out>, k: string)
    requires |outs| <= |fields| && k in first && forall i | 0 <= i < |outs| :: fields[i].0 != k
    ensures k in PutAll(first, fields, outs) && PutAll(first, fields, outs)[k] == first[k]
    decreases |outs|
  {
    if outs != [] {
      NotPutIsKept(first, fields[..|outs| - 1], outs[..|outs| - 1], k);
    }
  }

  lemma HandedOverIsShown(h: Heap, opts: Options, n: nat)
    requires WellFormed(h) && n < |h| && HandedOver(h, opts, n).Some? && HandedOver(h, opts, n).value < |h|
    ensures Shown(SanitizeLogValue(h, opts, Ref(n))) == Some(Exposed(h, HandedOver(h, opts, n).value))
  {
    hide IsSensitiveKey, WellFormed, Exposed, Children, RunAll, PutAll, Budget, ClassOf;
    var b := h[n].body;
    if SerializedBuffer(h, b.fields) == None {
      RecordBeginsWithClass(h, opts, n);
    }
  }

  lemma RecordBeginsWithClass(h: Heap, opts: Options, n: nat)
    requires WellFormed(h) && n < |h| && h[n].body.ObjectBody? && !IsLeaf(h, n)
    requires !ShowsOwnType(opts, h[n].body.fields)
    requires var name := ClassOf(h, h[n].body); name.Some? && name.value.Ref? && name.value.node < |h|
    ensures var m, r := ClassOf(h, h[n].body).value.node, SanitizeLogValue(h, opts, Ref(n));
            && r.Done? && r.out.ORecord? && "type" in r.out.fields
            && r.out.fields["type"] == ORaw(m, Exposed(h, m))
  {
    hide IsSensitiveKey, Exposed, PutAll, Budget, ClassOf, SerializedBuffer;
    assert Ranks(h, RankOf(h));
    var b, cs := h[n].body, Children(h, opts, n);
    RunAllCounts(h, opts, cs, 1, {} + {n}, true);
    var outs := RunAll(h, opts, cs, 1, {} + {n}, true).0.outs;
    var visible := Prefix(opts, MAX_OBJECT_KEYS, b.fields);
    assert |cs| == |visible|;
    assert forall i | 0 <= i < |outs| :: b.fields[i].0 != "type" by {
      forall i | 0 <= i < |outs| ensures b.fields[i].0 != "type" { assert visible[i] == b.fields[i]; }
    }
    hide RunAll, Children, WellFormed;
    NotPutIsKept(FirstFields(h, b), b.fields, outs, "type");
    assert SanitizeLogValue(h, opts, Ref(n)) == Done(Assemble(h, opts, b, outs));
  }

  lemma HandedOverAlike(h1: Heap, h2: Heap, p: set<nat>, opts: Options, n: nat)
    requires SameOutsideSecrets(h1, h2, p) && n in p && n < |h1|
    ensures n < |h2| && HandedOver(h1, opts, n) == HandedOver(h2, opts, n)
  {
    hide IsSensitiveKey, ClassOf, SerializedBuffer;
    assert SameNode(h1, h2, p, n);
    if h1[n].body.ObjectBody? {
      BuffersAgree(h1, h2, p, n);
      ClassesAgree(h1, h2, p, n);
      NamesAgree(h1[n].body.fields, h2[n].body.fields);
      var p1, p2 := Prefix(opts, MAX_OBJECT_KEYS, h1[n].body.fields), Prefix(opts, MAX_OBJECT_KEYS, h2[n].body.fields);
      assert |p1| == |p2| && forall i | 0 <= i < |p1| :: p1[i].0 == p2[i].0;
      var name := ClassOf(h1, h1[n].body);
      if name.Some? && name.value.Ref? { SameNodeExists(h1, h2, p, name.value.node); }
    }
  }

  /** Something that leads to a secret and is handed over tells one secret from another. */
  lemma ExposureTells(h: Heap, p: set<nat>, opts: Options, n: nat)
    requires SelfContained(h, p) && n in p && n < |h|
    requires HandedOver(h, opts, n).Some? && HandedOver(h, opts, n).value < |h|
    requires SecretIn(h, HandedOver(h, opts, n).value)
    ensures !Hides(h, p, opts)
  {
    hide IsSensitiveKey, SanitizeLogValue, Exposed, Reached, HandedOver, WellFormed, SameOutsideSecrets, Swapped;
    var m := HandedOver(h, opts, n).value;
    var k :| k in Reached(h, {m}) && HoldsSecret(h, k);
    var i := SecretIndex(h, k);
    var text := if SecretOf(h, h[k].body, i) == Text("a") then "b" else "a";
    SwappedIsComparable(h, p, k, i, text, n);
    var t := Swapped(h, k, i, text);
    HandedOverAlike(h, t, p, opts, n);
    SwappedSize(h, k, i, text);
    HandedOverIsShown(h, opts, n);
    HandedOverIsShown(t, opts, n);
    SwappedIsSeen(h, k, i, text, m);
  }

  lemma SecretIndex(h: Heap, k: nat) returns (i: nat)
    requires k < |h| && HoldsSecret(h, k)
    ensures SecretAt(h, h[k].body, i)
  {
    hide IsSensitiveKey;
    if h[k].body.MapBody? {
      i :| 0 <= i < |h[k].body.entries| && Sensitive(KeyOf(h, h[k].body.entries[i].0));
    } else {
      i :| 0 <= i < |h[k].body.fields| && IsSensitiveKey(h[k].body.fields[i].0);
    }
  }

  /** With values sanitized, a graph hides its secrets exactly when it hands over nothing that leads to one. */
  lemma {:induction false} HiddenIffNothingExposed(h: Heap, p: set<nat>, opts: Options)
    requires SelfContained(h, p) && opts.sanitizeValues
    ensures Hides(h, p, opts) <==> NothingExposed(h, opts, p)
  {
    hide SanitizeLogValue, WellFormed, SameOutsideSecrets, HandedOver, SecretIn, Hides;
    if NothingExposed(h, opts, p) {
      ExposingNothingHides(h, p, opts);
    } else {
      var n :| n in p && n < |h| && HandedOver(h, opts, n).Some? && HandedOver(h, opts, n).value < |h|
               && SecretIn(h, HandedOver(h, opts, n).value);
      ExposureTells(h, p, opts, n);
    }
  }

  lemma ExposingNothingHides(h: Heap, p: set<nat>, opts: Options)
    requires opts.sanitizeValues && NothingExposed(h, opts, p)
    ensures Hides(h, p, opts)
  {
    hide SanitizeLogValue, WellFormed, SameOutsideSecrets, NothingExposed;
    forall h2, v | Comparable(h, h2, p, v)
      ensures SanitizeLogValue(h, opts, v) == SanitizeLogValue(h2, opts, v)
    {
      SecretsAreHidden(h, h2, p, opts, v);
    }
  }

  // Which options hide the secrets of ordinary graphs.

  /** No object's class name is an object itself. */
  predicate OrdinaryClasses(h: Heap) {
    forall n | 0 <= n < |h| && h[n].body.ObjectBody? ::
      ClassOf(h, h[n].body).Some? ==> !ClassOf(h, h[n].body).value.Ref?
  }

  lemma OrdinaryGraphsExposeNothing(h: Heap, p: set<nat>, opts: Options)
    requires OrdinaryClasses(h) && opts.summarizeBinary
    ensures NothingExposed(h, opts, p)
  {
    hide ClassOf, SerializedBuffer, SecretIn;
  }

  lemma TokenIsSensitive()
    ensures IsSensitiveKey("token")
  {
    hide Normalize;
    LowerCaseIsNormal("token");
    assert SENSITIVE_KEY_PARTS[9] == "token";
    assert "token"[0..] == "token";
    assert Includes("token", SENSITIVE_KEY_PARTS[9]);
  }

  function Plain(fields: seq<(string, Value)>): Node {
    Node(Some("[object Object]"), ObjectBody(Some(Text("Object")), fields))
  }

  function Secret(secret: string): Node { Plain([("token", Text(secret))]) }

  /** Node 0 holds a secret; node 2 looks like a serialized Buffer whose data array, node 1, holds node 0. */
  function SecretHeap(secret: string): Heap {
    [Secret(secret), Node(Some("[object Object]"), ArrayBody([Ref(0)])),
     Plain([("type", Text("Buffer")), ("data", Ref(1))])]
  }

  /** What `{"constructor":{"name":{"token":...}}}` parses to: node 0 is the secret, node 2 the whole. */
  function ConstructorHeap(secret: string): Heap {
    [Secret(secret), Plain([("name", Ref(0))]), Plain([("constructor", Ref(1))])]
  }

  lemma SecretHeapIsOrdinary(secret: string)
    ensures OrdinaryClasses(SecretHeap(secret))
  {
    var h := SecretHeap(secret);
    var owner, buffer := h[0].body.fields, h[2].body.fields;
    assert Field(owner, "constructor") == Field(owner[1..], "constructor") == None;
    assert Field(buffer, "constructor") == Field(buffer[1..], "constructor")
        == Field(buffer[1..][1..], "constructor") == None;
  }

  lemma SecretHeapIsSelfContained(secret: string)
    ensures SelfContained(SecretHeap(secret), {0, 1, 2}) && OrdinaryClasses(SecretHeap(secret))
  {
    hide IsSensitiveKey, ClassOf, OrdinaryClasses;
    SecretHeapIsOrdinary(secret);
    var h := SecretHeap(secret);
    assert Closed(h, h[0].body) && Closed(h, h[1].body) && Closed(h, h[2].body);
    assert !HasCause(h[0].body) && !HasCause(h[1].body) && !HasCause(h[2].body);
    assert SameNode(h, h, {0, 1, 2}, 0) && SameNode(h, h, {0, 1, 2}, 1) && SameNode(h, h, {0, 1, 2}, 2);
    hide Closed, HasCause, SameNode;
    assert Ranks(h, [0, 0, 0]);
  }

  lemma ConstructorHeapIsSelfContained(secret: string)
    ensures SelfContained(ConstructorHeap(secret), {0, 1, 2})
  {
    hide IsSensitiveKey;
    var h := ConstructorHeap(secret);
    assert Closed(h, h[0].body) && Closed(h, h[1].body) && Closed(h, h[2].body);
    assert !HasCause(h[0].body) && !HasCause(h[1].body) && !HasCause(h[2].body);
    assert SameNode(h, h, {0, 1, 2}, 0) && SameNode(h, h, {0, 1, 2}, 1) && SameNode(h, h, {0, 1, 2}, 2);
    hide Closed, HasCause, SameNode;
    assert Ranks(h, [0, 0, 0]);
  }

  /** Without binary summaries a serialized Buffer's data is handed over as it is, with whatever it leads to. */
  lemma BufferShows(secret: string, opts: Options)
    requires !opts.summarizeBinary
    ensures var h := SecretHeap(secret);
            && SelfContained(h, {0, 1, 2})
            && SanitizeLogValue(h, opts, Ref(2)) == Done(ORawBuffer(1, Exposed(h, 1)))
            && 0 in Exposed(h, 1) && Exposed(h, 1)[0] == Secret(secret)
            && !Hides(h, {0, 1, 2}, opts)
  {
    hide IsSensitiveKey, WellFormed, SameOutsideSecrets, Hides;
    var h := SecretHeap(secret);
    SecretHeapIsSelfContained(secret);
    TokenIsSensitive();
    var fields := h[2].body.fields;
    assert Field(fields, "type") == Some(Text("Buffer"));
    assert Field(fields, "data") == Field(fields[1..], "data") == Some(Ref(1));
    assert Held(h[1].body) == [Ref(0)];
    assert 0 in Successors(h, Reached(h, {1}));
    assert IsSensitiveKey(h[0].body.fields[0].0) && HoldsSecret(h, 0);
    ExposureTells(h, {0, 1, 2}, opts, 2);
  }

  /** Under all options, the defaults included, the `name` of an own `constructor` is handed over as it is. */
  lemma ConstructorShows(secret: string, opts: Options)
    ensures SelfContained(ConstructorHeap(secret), {0, 1, 2})
    ensures var h, r := ConstructorHeap(secret), SanitizeLogValue(ConstructorHeap(secret), opts, Ref(2));
            && r.Done? && r.out.ORecord? && "type" in r.out.fields && r.out.fields["type"] == ORaw(0, Exposed(h, 0))
            && 0 in Exposed(h, 0) && Exposed(h, 0)[0] == Secret(secret)
            && !Hides(h, {0, 1, 2}, opts)
  {
    hide IsSensitiveKey, WellFormed, SameOutsideSecrets, Hides, SanitizeLogValue;
    var h := ConstructorHeap(secret);
    ConstructorHeapIsSelfContained(secret);
    TokenIsSensitive();
    var fields := h[2].body.fields;
    assert Field(fields, "type") == Field(fields[1..], "type") == None;
    assert !ShowsOwnType(opts, fields);
    assert ClassOf(h, h[2].body) == Some(Ref(0));
    RecordBeginsWithClass(h, opts, 2);
    assert IsSensitiveKey(h[0].body.fields[0].0) && HoldsSecret(h, 0);
    ExposureTells(h, {0, 1, 2}, opts, 2);
  }

  /** Without sanitized values a secret is written out. */
  lemma {:induction false} SecretShows(secret: string, opts: Options)
    requires !opts.sanitizeValues
    requires WellFormed(SecretHeap(secret))
    ensures SanitizeLogValue(SecretHeap(secret), opts, Ref(0)) == Done(ORecord(map["token" := OText(secret)]))
  {
    hide WellFormed, IsSensitiveKey;
    var h := SecretHeap(secret);
    var fields := h[0].body.fields;
    assert Field(fields, "type") == Field(fields[1..], "type") == None;
    assert Field(fields, "constructor") == Field(fields[1..], "constructor") == None;
    var cs := Children(h, opts, 0);
    assert cs == [Child(Keyed("token"), Text(secret))] && cs[..0] == [];
    assert RunAll(h, opts, cs[..0], 1, {} + {0}, true) == (AllDone([]), {} + {0});
    assert [] + [OText(secret)] == [OText(secret)];
    assert RunAll(h, opts, cs, 1, {} + {0}, true) == (AllDone([OText(secret)]), {} + {0});
    assert PutAll(map[], fields[..0], []) == map[];
    assert [OText(secret)][..0] == [];
  }

  lemma SecretHeapsAreComparable(a: string, b: string)
    ensures Comparable(SecretHeap(a), SecretHeap(b), {0, 1, 2}, Ref(0))
  {
    hide IsSensitiveKey;
    SecretHeapIsSelfContained(a);
    SecretHeapIsSelfContained(b);
    hide WellFormed;
    TokenIsSensitive();
    var h1, h2, p := SecretHeap(a), SecretHeap(b), {0, 1, 2};
    assert MaskedFields(h1[0].body.fields) == MaskedFields(h2[0].body.fields);
    assert SameNode(h1, h2, p, 0) && SameNode(h1, h2, p, 1) && SameNode(h1, h2, p, 2);
  }

  lemma {:induction false} UnsanitizedTells(opts: Options)
    requires !opts.sanitizeValues
    ensures !Hides(SecretHeap("a"), {0, 1, 2}, opts)
  {
    hide SanitizeLogValue, WellFormed, SameOutsideSecrets, SecretHeap;
    SecretHeapsAreComparable("a", "b");
    SecretShows("a", opts);
    SecretShows("b", opts);
    assert map["token" := OText("a")]["token"] != map["token" := OText("b")]["token"];
  }

  /**
   * All graphs without odd class names hide their secrets exactly under options that sanitize values and
   * summarize binary data, as the defaults do.
   */
  lemma {:induction false} OrdinaryGraphsHideIffSanitizedAndSummarized(opts: Options)
    ensures (forall h, p | SelfContained(h, p) && OrdinaryClasses(h) :: Hides(h, p, opts))
            <==> opts.sanitizeValues && opts.summarizeBinary
  {
    hide Hides, SelfContained, OrdinaryClasses, NothingExposed, SecretHeap;
    if opts.sanitizeValues && opts.summarizeBinary {
      forall h, p | SelfContained(h, p) && OrdinaryClasses(h) ensures Hides(h, p, opts) {
        OrdinaryGraphsExposeNothing(h, p, opts);
        ExposingNothingHides(h, p, opts);
      }
    } else {
      SecretHeapIsSelfContained("a");
      if !opts.sanitizeValues { UnsanitizedTells(opts); } else { BufferShows("a", opts); }
      assert SelfContained(SecretHeap("a"), {0, 1, 2}) && OrdinaryClasses(SecretHeap("a"));
    }
  }
}
