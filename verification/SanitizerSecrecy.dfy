/**
 * What stands under a sensitive key does not influence the output: two graphs that agree outside those
 * values are rendered alike, unless a secret lies in what is handed over as it is. That can be the data of
 * a serialized Buffer, and the `name` of an object's own `constructor`.
 */
module SanitizerSecrecy {
  import opened Wrappers
  import opened SanitizerModel

  /** A node's body with every value under a sensitive key blotted out. */
  function Masked(h: Heap, b: Body): Body
    requires Closed(h, b)
  {
    match b
    case MapBody(entries) => MapBody(MaskedEntries(h, entries))
    case ObjectBody(className, fields) => ObjectBody(className, MaskedFields(fields))
    case _ => b
  }

  function MaskedFields(fields: seq<(string, Value)>): seq<(string, Value)> {
    seq(|fields|, i requires 0 <= i < |fields| => (fields[i].0, Blot(Keyed(fields[i].0), fields[i].1)))
  }

  function MaskedEntries(h: Heap, entries: seq<(Value, Value)>): seq<(Value, Value)> {
    seq(|entries|, i requires 0 <= i < |entries| => (entries[i].0, Blot(KeyOf(h, entries[i].0), entries[i].1)))
  }

  function Blot(key: Key, v: Value): Value { if Sensitive(key) then Absent("") else v }

  predicate Sensitive(key: Key) { key.Keyed? && IsSensitiveKey(key.text) }

  ghost predicate Public(v: Value, p: set<nat>) { v.Ref? ==> v.node in p }

  ghost predicate LeadsInto(b: Body, p: set<nat>) {
    match b
    case MapBody(entries) => forall i | 0 <= i < |entries| :: Public(entries[i].0, p) && Public(entries[i].1, p)
    case SetBody(values) => forall i | 0 <= i < |values| :: Public(values[i], p)
    case ArrayBody(items) => forall i | 0 <= i < |items| :: Public(items[i], p)
    case ObjectBody(name, fields) =>
      (name.Some? ==> Public(name.value, p)) && forall i | 0 <= i < |fields| :: Public(fields[i].1, p)
    case ErrorBody(_, _, _, _, cause) => cause.Some? ==> Public(cause.value, p)
    case _ => true
  }

  ghost predicate SameNode(h1: Heap, h2: Heap, p: set<nat>, n: nat) {
    && n < |h1| && n < |h2| && h1[n].text == h2[n].text
    && Closed(h1, h1[n].body) && Closed(h2, h2[n].body)
    && Masked(h1, h1[n].body) == Masked(h2, h2[n].body)
    && LeadsInto(Masked(h1, h1[n].body), p)
  }

  /** The graphs agree on the nodes `p` up to values under sensitive keys, and only those lead out of `p`. */
  ghost predicate SameOutsideSecrets(h1: Heap, h2: Heap, p: set<nat>) { forall n | n in p :: SameNode(h1, h2, p, n) }

  // Keys.

  lemma {:induction false} LowerCaseIsNormal(s: string)
    requires forall i | 0 <= i < |s| :: 'a' <= s[i] <= 'z'
    ensures Normalize(s) == s
  {
    if s != "" { LowerCaseIsNormal(s[1..]); }
  }

  lemma FourLettersAreNotSensitive(key: string)
    requires |key| == 4 && key != "ucan" && forall i | 0 <= i < |key| :: 'a' <= key[i] <= 'z'
    ensures !IsSensitiveKey(key)
  {
    hide Includes, Normalize;
    LowerCaseIsNormal(key);
    forall i | 0 <= i < |SENSITIVE_KEY_PARTS| ensures !Includes(key, SENSITIVE_KEY_PARTS[i]) {
      assert |SENSITIVE_KEY_PARTS[i]| >= 4 && (|SENSITIVE_KEY_PARTS[i]| == 4 ==> SENSITIVE_KEY_PARTS[i] == "ucan");
      if Includes(key, SENSITIVE_KEY_PARTS[i]) { IncludesFits(key, SENSITIVE_KEY_PARTS[i]); }
    }
  }

  /** Every sensitive part has a letter that is not in "constructor". */
  lemma ConstructorIsNotSensitive()
    ensures !IsSensitiveKey("constructor")
  {
    hide Includes, Normalize;
    LowerCaseIsNormal("constructor");
    var foreign := [0, 0, 0, 1, 0, 1, 0, 1, 0, 2, 2, 2, 0, 0, 1, 0];
    forall i | 0 <= i < |SENSITIVE_KEY_PARTS| ensures !Includes("constructor", SENSITIVE_KEY_PARTS[i]) {
      assert foreign[i] < |SENSITIVE_KEY_PARTS[i]| && SENSITIVE_KEY_PARTS[i][foreign[i]] in "apeikd";
      ForeignLetter("constructor", SENSITIVE_KEY_PARTS[i], foreign[i]);
    }
  }

  lemma ForeignLetter(text: string, part: string, i: nat)
    requires i < |part| && part[i] !in text
    ensures !Includes(text, part)
  {
    if Includes(text, part) { LettersComeAlong(text, part, i); }
  }

  lemma LettersComeAlong(text: string, part: string, i: nat)
    requires i < |part| && Includes(text, part)
    ensures part[i] in text
  {
    var k :| 0 <= k <= |text| && part <= text[k..];
    assert text[k + i] == part[i];
  }

  lemma {:induction false} FieldSurvives(fields: seq<(string, Value)>, name: string)
    requires !IsSensitiveKey(name)
    ensures Field(MaskedFields(fields), name) == Field(fields, name)
  {
    hide IsSensitiveKey;
    if fields != [] {
      assert MaskedFields(fields)[1..] == MaskedFields(fields[1..]);
      FieldSurvives(fields[1..], name);
    }
  }

  // What is handed over as it is.

  predicate HoldsSecret(h: Heap, n: nat)
    requires n < |h|
  {
    match h[n].body
    case MapBody(entries) => exists i | 0 <= i < |entries| :: Sensitive(KeyOf(h, entries[i].0))
    case ObjectBody(_, fields) => exists i | 0 <= i < |fields| :: IsSensitiveKey(fields[i].0)
    case _ => false
  }

  predicate SecretIn(h: Heap, n: nat)
    requires n < |h|
  {
    exists k | k in Reached(h, {n}) :: HoldsSecret(h, k)
  }

  /** Whether an own field will replace the class name that the output begins with. */
  predicate ShowsOwnType(opts: Options, fields: seq<(string, Value)>) {
    var visible := Prefix(opts, MAX_OBJECT_KEYS, fields);
    exists i | 0 <= i < |visible| :: visible[i].0 == "type"
  }

  /** The node that becomes part of the output as it is, if there is one. */
  function HandedOver(h: Heap, opts: Options, n: nat): Option<nat>
    requires n < |h|
  {
    if !h[n].body.ObjectBody? then None
    else
      var fields, data := h[n].body.fields, SerializedBuffer(h, h[n].body.fields);
      if data.Some? then (if opts.summarizeBinary then None else data)
      else if ShowsOwnType(opts, fields) then None
      else
        match ClassOf(h, h[n].body)
        case Some(Ref(m)) => if m < |h| then Some(m) else None
        case _ => None
  }

  /** No node of p hands over something that leads to a secret. */
  ghost predicate NothingExposed(h: Heap, opts: Options, p: set<nat>) {
    forall n | n in p && n < |h| && HandedOver(h, opts, n).Some? && HandedOver(h, opts, n).value < |h| ::
      !SecretIn(h, HandedOver(h, opts, n).value)
  }

  lemma NoSecretIsUnmasked(h: Heap, n: nat)
    requires n < |h| && Closed(h, h[n].body) && !HoldsSecret(h, n)
    ensures Masked(h, h[n].body) == h[n].body
  {
    hide IsSensitiveKey;
    var b := h[n].body;
    if b.MapBody? {
      assert MaskedEntries(h, b.entries) == b.entries;
    } else if b.ObjectBody? {
      assert MaskedFields(b.fields) == b.fields;
    }
  }

  lemma SecretsAgree(h1: Heap, h2: Heap, p: set<nat>, n: nat)
    requires SameOutsideSecrets(h1, h2, p) && n in p && n < |h1| && n < |h2|
    ensures HoldsSecret(h1, n) == HoldsSecret(h2, n)
  {
    hide IsSensitiveKey;
    assert SameNode(h1, h2, p, n);
    var b1, b2 := h1[n].body, h2[n].body;
    if b1.MapBody? {
      KeysAgree(h1, h2, p, b1.entries, b2.entries);
    } else if b1.ObjectBody? {
      NamesAgree(b1.fields, b2.fields);
    }
  }

  lemma NamesAgree(f1: seq<(string, Value)>, f2: seq<(string, Value)>)
    requires MaskedFields(f1) == MaskedFields(f2)
    ensures |f1| == |f2| && forall i | 0 <= i < |f1| :: f1[i].0 == f2[i].0
  {
    assert |f1| == |MaskedFields(f1)| == |MaskedFields(f2)| == |f2|;
    forall i | 0 <= i < |f1| ensures f1[i].0 == f2[i].0 {
      assert MaskedFields(f1)[i] == MaskedFields(f2)[i];
    }
  }

  lemma KeysAgree(h1: Heap, h2: Heap, p: set<nat>, e1: seq<(Value, Value)>, e2: seq<(Value, Value)>)
    requires SameOutsideSecrets(h1, h2, p) && MaskedEntries(h1, e1) == MaskedEntries(h2, e2)
    requires forall i | 0 <= i < |e1| :: Public(MaskedEntries(h1, e1)[i].0, p)
    ensures |e1| == |e2|
    ensures forall i | 0 <= i < |e1| ::
              e1[i].0 == e2[i].0 && Public(e1[i].0, p) && KeyOf(h1, e1[i].0) == KeyOf(h2, e2[i].0)
  {
    hide IsSensitiveKey, SameNode;
    assert |e1| == |MaskedEntries(h1, e1)| == |MaskedEntries(h2, e2)| == |e2|;
    forall i | 0 <= i < |e1|
      ensures e1[i].0 == e2[i].0 && Public(e1[i].0, p) && KeyOf(h1, e1[i].0) == KeyOf(h2, e2[i].0)
    {
      assert MaskedEntries(h1, e1)[i] == MaskedEntries(h2, e2)[i];
      TextsAgree(h1, h2, p, e1[i].0);
    }
  }

  lemma TextsAgree(h1: Heap, h2: Heap, p: set<nat>, v: Value)
    requires SameOutsideSecrets(h1, h2, p) && Public(v, p)
    ensures KeyText(h1, v) == KeyText(h2, v)
  {
    if v.Ref? { assert SameNode(h1, h2, p, v.node); }
  }

  /** Where nothing reached from m holds a secret, the graphs agree there node by node. */
  lemma NodesAgree(h1: Heap, h2: Heap, p: set<nat>, n: nat)
    requires SameOutsideSecrets(h1, h2, p) && n in p && n < |h1| && !HoldsSecret(h1, n)
    ensures n < |h2| && h1[n] == h2[n] && forall v | v in Held(h1[n].body) && v.Ref? :: v.node in p
  {
    hide HoldsSecret, Masked;
    assert SameNode(h1, h2, p, n);
    NoSecretIsUnmasked(h1, n);
    SecretsAgree(h1, h2, p, n);
    NoSecretIsUnmasked(h2, n);
  }

  lemma ReachIsPublic(h1: Heap, h2: Heap, p: set<nat>, m: nat)
    requires SameOutsideSecrets(h1, h2, p) && m in p && m < |h1| && !SecretIn(h1, m)
    ensures Reached(h1, {m}) <= p
    ensures forall n | n in Reached(h1, {m}) :: n < |h2| && h1[n] == h2[n]
    ensures forall n, v | n in Reached(h1, {m}) && v in Held(h1[n].body) && v.Ref? :: v.node in p
  {
    hide HoldsSecret, Held, Reached, SameOutsideSecrets;
    var inside := set n | n in Reached(h1, {m}) && n in p;
    forall n | n in inside
      ensures n < |h2| && h1[n] == h2[n] && forall v | v in Held(h1[n].body) && v.Ref? :: v.node in p
    {
      NodesAgree(h1, h2, p, n);
    }
    assert m in inside && ClosedUnder(h1, inside);
  }

  lemma ExposedAgree(h1: Heap, h2: Heap, p: set<nat>, m: nat)
    requires SameOutsideSecrets(h1, h2, p) && m in p && m < |h1| && m < |h2| && !SecretIn(h1, m)
    ensures Exposed(h1, m) == Exposed(h2, m)
  {
    hide HoldsSecret, Held, Reached, SameOutsideSecrets;
    var r1, r2 := Reached(h1, {m}), Reached(h2, {m});
    ReachIsPublic(h1, h2, p, m);
    forall n | n in p ensures n < |h1| && n < |h2| { SameNodeExists(h1, h2, p, n); }
    SameReach(h1, h2, p, r1);
    assert r2 <= r1;
    SameReach(h2, h1, p, r2);
    assert r1 == r2;
  }

  lemma SameNodeExists(h1: Heap, h2: Heap, p: set<nat>, n: nat)
    requires SameOutsideSecrets(h1, h2, p) && n in p
    ensures n < |h1| && n < |h2|
  {
    assert SameNode(h1, h2, p, n);
  }

  lemma SameReach(h1: Heap, h2: Heap, p: set<nat>, r: set<nat>)
    requires ClosedUnder(h1, r) && r <= p && forall n | n in p :: n < |h1| && n < |h2|
    requires forall n | n in r :: h1[n] == h2[n] && forall v | v in Held(h1[n].body) && v.Ref? :: v.node in p
    ensures ClosedUnder(h2, r)
  {
    hide Held;
    forall k | k in Successors(h2, r) ensures k in r {
      var n, v :| n in r && n < |h2| && v in Held(h2[n].body) && v.Ref? && v.node < |h2| && v.node == k;
      assert v in Held(h1[n].body);
      assert k in Successors(h1, r);
    }
  }

  // One node.

  lemma LeavesAgree(h1: Heap, h2: Heap, p: set<nat>, opts: Options, n: nat)
    requires SameOutsideSecrets(h1, h2, p) && n in p && NothingExposed(h1, opts, p)
    ensures n < |h1| && n < |h2| && IsLeaf(h1, n) == IsLeaf(h2, n)
    ensures IsLeaf(h1, n) ==> LeafOutcome(h1, opts, n) == LeafOutcome(h2, opts, n)
  {
    hide IsSensitiveKey, Field, SecretIn, Exposed;
    assert SameNode(h1, h2, p, n);
    if h1[n].body.ObjectBody? {
      BuffersAgree(h1, h2, p, n);
      var data := SerializedBuffer(h1, h1[n].body.fields);
      if data.Some? {
        assert SameNode(h1, h2, p, data.value);
        if !opts.summarizeBinary {
          assert HandedOver(h1, opts, n) == data;
          ExposedAgree(h1, h2, p, data.value);
        }
      }
    }
  }

  lemma BuffersAgree(h1: Heap, h2: Heap, p: set<nat>, n: nat)
    requires SameOutsideSecrets(h1, h2, p) && n in p && n < |h1| && n < |h2| && h1[n].body.ObjectBody?
    ensures h2[n].body.ObjectBody?
    ensures SerializedBuffer(h1, h1[n].body.fields) == SerializedBuffer(h2, h2[n].body.fields)
    ensures var data := SerializedBuffer(h1, h1[n].body.fields); data.Some? ==> data.value in p
  {
    hide IsSensitiveKey, Field;
    assert SameNode(h1, h2, p, n);
    var f1, f2 := h1[n].body.fields, h2[n].body.fields;
    FourLettersAreNotSensitive("type");
    FourLettersAreNotSensitive("data");
    FieldSurvives(f1, "type");
    FieldSurvives(f2, "type");
    FieldSurvives(f1, "data");
    FieldSurvives(f2, "data");
    var data := Field(f1, "data");
    if data.Some? && data.value.Ref? {
      FieldIsHeld(MaskedFields(f1), "data");
      assert SameNode(h1, h2, p, data.value.node);
    }
  }

  lemma {:induction false} FieldIsHeld(fields: seq<(string, Value)>, name: string)
    requires Field(fields, name).Some?
    ensures exists i | 0 <= i < |fields| :: fields[i].1 == Field(fields, name).value
  {
    if fields[0].0 != name {
      FieldIsHeld(fields[1..], name);
      var i :| 0 <= i < |fields[1..]| && fields[1..][i].1 == Field(fields, name).value;
      assert fields[i + 1].1 == Field(fields, name).value;
    }
  }

  /** The same key, and the same public value unless the key is sensitive. */
  ghost predicate Alike(opts: Options, p: set<nat>, c1: Child, c2: Child) {
    && c1.key == c2.key
    && (Redacts(opts, c1.key) || (c1.value == c2.value && Public(c1.value, p)))
  }

  ghost predicate AllAlike(opts: Options, p: set<nat>, cs1: seq<Child>, cs2: seq<Child>) {
    |cs1| == |cs2| && forall i | 0 <= i < |cs1| :: Alike(opts, p, cs1[i], cs2[i])
  }

  lemma ChildrenAgree(h1: Heap, h2: Heap, p: set<nat>, opts: Options, n: nat)
    requires SameOutsideSecrets(h1, h2, p) && n in p && opts.sanitizeValues
    requires n < |h1| && n < |h2| && Closed(h1, h1[n].body) && Closed(h2, h2[n].body)
    requires !IsLeaf(h1, n) && !IsLeaf(h2, n)
    ensures AllAlike(opts, p, Children(h1, opts, n), Children(h2, opts, n))
  {
    hide IsSensitiveKey, SerializedBuffer;
    assert SameNode(h1, h2, p, n);
    match h1[n].body
    case MapBody(e1) => EntriesAgree(h1, h2, p, opts, e1, h2[n].body.entries, MAX_ARRAY_ITEMS);
    case ObjectBody(_, f1) => FieldsAgree(p, opts, f1, h2[n].body.fields, MAX_OBJECT_KEYS);
    case _ =>
  }

  lemma FieldsAgree(p: set<nat>, opts: Options, f1: seq<(string, Value)>, f2: seq<(string, Value)>, limit: nat)
    requires opts.sanitizeValues && MaskedFields(f1) == MaskedFields(f2)
    requires forall i | 0 <= i < |f1| :: Public(MaskedFields(f1)[i].1, p)
    ensures AllAlike(opts, p, FieldChildren(Prefix(opts, limit, f1)), FieldChildren(Prefix(opts, limit, f2)))
  {
    hide IsSensitiveKey;
    NamesAgree(f1, f2);
    forall i | 0 <= i < |f1|
      ensures Alike(opts, p, Child(Keyed(f1[i].0), f1[i].1), Child(Keyed(f2[i].0), f2[i].1))
    {
      assert MaskedFields(f1)[i] == MaskedFields(f2)[i];
    }
  }

  lemma EntriesAgree(
    h1: Heap, h2: Heap, p: set<nat>, opts: Options, e1: seq<(Value, Value)>, e2: seq<(Value, Value)>, limit: nat)
    requires SameOutsideSecrets(h1, h2, p) && opts.sanitizeValues && MaskedEntries(h1, e1) == MaskedEntries(h2, e2)
    requires forall i | 0 <= i < |e1| ::
               Public(MaskedEntries(h1, e1)[i].0, p) && Public(MaskedEntries(h1, e1)[i].1, p)
    ensures AllAlike(opts, p, EntryChildren(h1, Prefix(opts, limit, e1)), EntryChildren(h2, Prefix(opts, limit, e2)))
  {
    hide IsSensitiveKey, SameNode, KeyText;
    KeysAgree(h1, h2, p, e1, e2);
    var p1, p2 := Prefix(opts, limit, e1), Prefix(opts, limit, e2);
    forall i | 0 <= i < |p1|
      ensures Alike(opts, p, Child(KeyOf(h1, p1[i].0), p1[i].1), Child(KeyOf(h2, p2[i].0), p2[i].1))
    {
      assert MaskedEntries(h1, e1)[i] == MaskedEntries(h2, e2)[i];
    }
    var cs1, cs2 := EntryChildren(h1, p1), EntryChildren(h2, p2);
    forall i | 0 <= i < |cs1| ensures Alike(opts, p, cs1[i], cs2[i]) {
      assert p1[i / 2].0 == p2[i / 2].0;
    }
  }

  // Class names.

  /** A public field of a public node. */
  lemma LookupsAgree(h1: Heap, h2: Heap, p: set<nat>, n: nat, name: string)
    requires SameOutsideSecrets(h1, h2, p) && n in p && n < |h1| && h1[n].body.ObjectBody? && !IsSensitiveKey(name)
    ensures n < |h2| && h2[n].body.ObjectBody?
    ensures Field(h1[n].body.fields, name) == Field(h2[n].body.fields, name)
    ensures Field(h1[n].body.fields, name).Some? ==> Public(Field(h1[n].body.fields, name).value, p)
  {
    hide IsSensitiveKey, Field;
    assert SameNode(h1, h2, p, n);
    var f1, f2 := h1[n].body.fields, h2[n].body.fields;
    FieldSurvives(f1, name);
    FieldSurvives(f2, name);
    if Field(f1, name).Some? { FieldIsHeld(MaskedFields(f1), name); }
  }

  lemma ClassesAgree(h1: Heap, h2: Heap, p: set<nat>, n: nat)
    requires SameOutsideSecrets(h1, h2, p) && n in p && n < |h1| && h1[n].body.ObjectBody?
    ensures n < |h2| && h2[n].body.ObjectBody? && ClassOf(h1, h1[n].body) == ClassOf(h2, h2[n].body)
    ensures ClassOf(h1, h1[n].body).Some? ==> Public(ClassOf(h1, h1[n].body).value, p)
  {
    hide IsSensitiveKey, Field;
    assert SameNode(h1, h2, p, n);
    ConstructorIsNotSensitive();
    FourLettersAreNotSensitive("name");
    LookupsAgree(h1, h2, p, n, "constructor");
    var own := Field(h1[n].body.fields, "constructor");
    if own.Some? && own.value.Ref? {
      var k := own.value.node;
      assert SameNode(h1, h2, p, k);
      if h1[k].body.ObjectBody? { LookupsAgree(h1, h2, p, k, "name"); }
    }
  }

  predicate AgreeOffType(a: map<string, Out>, b: map<string, Out>) { a - {"type"} == b - {"type"} }

  /** An own `type` field that is shown replaces whatever the output began with. */
  lemma {:induction false} OwnTypeWins(
    first1: map<string, Out>, first2: map<string, Out>, fields: seq<(string, Value)>, outs: seq<Out>)
    requires AgreeOffType(first1, first2) && |outs| <= |fields|
    ensures AgreeOffType(PutAll(first1, fields, outs), PutAll(first2, fields, outs))
    ensures (exists i | 0 <= i < |outs| :: fields[i].0 == "type") ==>
              PutAll(first1, fields, outs) == PutAll(first2, fields, outs)
    decreases |outs|
  {
    if outs != [] {
      var n := |outs| - 1;
      OwnTypeWins(first1, first2, fields[..n], outs[..n]);
      if fields[n].0 == "type" {
        UpdateHidesType(PutAll(first1, fields[..n], outs[..n]), PutAll(first2, fields[..n], outs[..n]), outs[n]);
      } else {
        UpdateOffType(
          PutAll(first1, fields[..n], outs[..n]), PutAll(first2, fields[..n], outs[..n]), fields[n].0, outs[n]);
        assert forall i | 0 <= i < n :: fields[..n][i] == fields[i];
      }
    }
  }

  lemma UpdateHidesType(a: map<string, Out>, b: map<string, Out>, o: Out)
    requires AgreeOffType(a, b)
    ensures a["type" := o] == b["type" := o]
  {
    assert a["type" := o] == (a - {"type"})["type" := o];
    assert b["type" := o] == (b - {"type"})["type" := o];
  }

  lemma UpdateOffType(a: map<string, Out>, b: map<string, Out>, k: string, o: Out)
    requires AgreeOffType(a, b) && k != "type"
    ensures AgreeOffType(a[k := o], b[k := o])
  {
    assert a[k := o] - {"type"} == (a - {"type"})[k := o];
    assert b[k := o] - {"type"} == (b - {"type"})[k := o];
  }

  lemma {:induction false} OnlyNamesMatter(
    output: map<string, Out>, f1: seq<(string, Value)>, f2: seq<(string, Value)>, outs: seq<Out>)
    requires |f1| == |f2| && forall i | 0 <= i < |f1| :: f1[i].0 == f2[i].0
    ensures PutAll(output, f1, outs) == PutAll(output, f2, outs)
    decreases |outs|
  {
    if outs != [] && |outs| <= |f1| {
      var n := |outs| - 1;
      OnlyNamesMatter(output, f1[..n], f2[..n], outs[..n]);
    }
  }

  lemma FirstFieldsAgree(h1: Heap, h2: Heap, p: set<nat>, opts: Options, n: nat)
    requires SameOutsideSecrets(h1, h2, p) && n in p && n < |h1| && NothingExposed(h1, opts, p)
    requires h1[n].body.ObjectBody? && !IsLeaf(h1, n)
    ensures n < |h2| && h2[n].body.ObjectBody? && AgreeOffType(FirstFields(h1, h1[n].body), FirstFields(h2, h2[n].body))
    ensures ShowsOwnType(opts, h1[n].body.fields) || FirstFields(h1, h1[n].body) == FirstFields(h2, h2[n].body)
  {
    hide IsSensitiveKey, Field, SecretIn, Exposed, ClassOf, ShowsOwnType, SerializedBuffer;
    ClassesAgree(h1, h2, p, n);
    var name := ClassOf(h1, h1[n].body);
    if name.Some? && name.value.Ref? {
      SameNodeExists(h1, h2, p, name.value.node);
      if !ShowsOwnType(opts, h1[n].body.fields) {
        assert HandedOver(h1, opts, n) == Some(name.value.node);
        ExposedAgree(h1, h2, p, name.value.node);
      }
    }
  }

  lemma ObjectShapesAgree(h1: Heap, h2: Heap, p: set<nat>, opts: Options, n: nat, outs: seq<Out>)
    requires SameOutsideSecrets(h1, h2, p) && n in p && n < |h1| && NothingExposed(h1, opts, p)
    requires h1[n].body.ObjectBody? && !IsLeaf(h1, n)
    requires |outs| == |Prefix(opts, MAX_OBJECT_KEYS, h1[n].body.fields)|
    ensures n < |h2| && Assemble(h1, opts, h1[n].body, outs) == Assemble(h2, opts, h2[n].body, outs)
  {
    hide IsSensitiveKey, PutAll, FirstFields, NothingExposed, IsLeaf;
    FirstFieldsAgree(h1, h2, p, opts, n);
    assert SameNode(h1, h2, p, n);
    var f1, f2 := h1[n].body.fields, h2[n].body.fields;
    NamesAgree(f1, f2);
    var first1, first2 := FirstFields(h1, h1[n].body), FirstFields(h2, h2[n].body);
    OwnTypeWins(first1, first2, f1, outs);
    OnlyNamesMatter(first2, f1, f2, outs);
    assert PutAll(first1, f1, outs) == PutAll(first2, f2, outs) by {
      if ShowsOwnType(opts, f1) {
        var i :| 0 <= i < |Prefix(opts, MAX_OBJECT_KEYS, f1)| && Prefix(opts, MAX_OBJECT_KEYS, f1)[i].0 == "type";
        assert f1[i].0 == "type";
      }
    }
  }

  lemma ShapesAgree(h1: Heap, h2: Heap, p: set<nat>, opts: Options, n: nat, outs: seq<Out>)
    requires SameOutsideSecrets(h1, h2, p) && n in p && n < |h1| && NothingExposed(h1, opts, p)
    requires Closed(h1, h1[n].body) && !IsLeaf(h1, n) && |outs| == |Children(h1, opts, n)|
    ensures n < |h2| && Assemble(h1, opts, h1[n].body, outs) == Assemble(h2, opts, h2[n].body, outs)
  {
    hide IsSensitiveKey, PutAll, Pairs, WithMarker, NothingExposed, FirstFields, SerializedBuffer;
    assert SameNode(h1, h2, p, n);
    if h1[n].body.ObjectBody? {
      ObjectShapesAgree(h1, h2, p, opts, n, outs);
    } else if h1[n].body.MapBody? {
      KeysAgree(h1, h2, p, h1[n].body.entries, h2[n].body.entries);
    }
  }

  lemma MarkersAgree(h1: Heap, h2: Heap, p: set<nat>, n: nat)
    requires SameOutsideSecrets(h1, h2, p) && n in p && n < |h1|
    ensures n < |h2| && DepthOutcome(h1, h1[n].body) == DepthOutcome(h2, h2[n].body)
    ensures Opens(h1, h1[n].body) == Opens(h2, h2[n].body)
    ensures h1[n].body.ErrorBody? == h2[n].body.ErrorBody? && h1[n].body.ObjectBody? == h2[n].body.ObjectBody?
    ensures h1[n].body.ArrayBody? == h2[n].body.ArrayBody?
    ensures h1[n].body.ErrorBody? ==> h1[n].body == h2[n].body && LeadsInto(h1[n].body, p)
  {
    hide IsSensitiveKey, ClassOf;
    assert SameNode(h1, h2, p, n);
    var b1, b2 := h1[n].body, h2[n].body;
    if b1.MapBody? {
      KeysAgree(h1, h2, p, b1.entries, b2.entries);
    } else if b1.ObjectBody? {
      ClassesAgree(h1, h2, p, n);
      var name := ClassOf(h1, b1);
      if name.Some? { TextsAgree(h1, h2, p, name.value); }
    }
  }

  // The recursion.

  lemma {:induction false} RunsAgree(
    h1: Heap, h2: Heap, p: set<nat>, opts: Options, c1: Child, c2: Child, depth: nat, seen: set<nat>)
    requires WellFormed(h1) && WellFormed(h2) && SameOutsideSecrets(h1, h2, p)
    requires opts.sanitizeValues && NothingExposed(h1, opts, p)
    requires ValidRef(h1, c1.value) && ValidRef(h2, c2.value) && Alike(opts, p, c1, c2)
    ensures Run(h1, opts, c1, depth, seen) == Run(h2, opts, c2, depth, seen)
    decreases Budget(h1, opts, depth, seen), 0, CauseRank(h1, RankOf(h1), c1.value)
  {
    hide Assemble, LeafOutcome, IsLeaf, Children, PrimitiveOut, IsSensitiveKey, Budget, DepthOutcome, Opens,
         SameOutsideSecrets, Closed, NothingExposed;
    if !c1.key.Unreadable? && !Redacts(opts, c1.key) && c1.value.Ref? {
      var n := c1.value.node;
      LeavesAgree(h1, h2, p, opts, n);
      MarkersAgree(h1, h2, p, n);
      assert Ranks(h1, RankOf(h1)) && Ranks(h2, RankOf(h2));
      if !IsLeaf(h1, n) {
        if h1[n].body.ErrorBody? {
          ErrorsHaveCauses(h1, n);
          ErrorsHaveCauses(h2, n);
          var c := Child(Keyed("cause"), h1[n].body.cause.value);
          BudgetFalls(h1, opts, depth, seen, seen);
          RunsAgree(h1, h2, p, opts, c, c, depth + 1, seen);
          ErrorsAlike(h1, h2, opts, h1[n].body);
        } else if n !in seen && Opens(h1, h1[n].body) && !TooDeep(opts, depth) {
          BudgetFallsInside(h1, opts, depth, seen, n);
          ChildrenAgree(h1, h2, p, opts, n);
          var catching := h1[n].body.ObjectBody?;
          RunAllsAgree(h1, h2, p, opts, Children(h1, opts, n), Children(h2, opts, n), depth + 1, seen + {n}, catching);
          var inner := RunAll(h1, opts, Children(h1, opts, n), depth + 1, seen + {n}, catching).0;
          RunAllCounts(h1, opts, Children(h1, opts, n), depth + 1, seen + {n}, catching);
          if inner.AllDone? { ShapesAgree(h1, h2, p, opts, n, inner.outs); }
        }
      }
    }
  }

  lemma ErrorsAlike(h1: Heap, h2: Heap, opts: Options, b: Body)
    requires b.ErrorBody?
    ensures forall outs :: Assemble(h1, opts, b, outs) == Assemble(h2, opts, b, outs)
  {
  }

  lemma {:induction false} RunAllCounts(
    h: Heap, opts: Options, cs: seq<Child>, depth: nat, seen: set<nat>, catching: bool)
    requires WellFormed(h) && forall i | 0 <= i < |cs| :: ValidRef(h, cs[i].value)
    ensures var r := RunAll(h, opts, cs, depth, seen, catching).0; r.AllDone? ==> |r.outs| == |cs|
    decreases |cs|
  {
    hide Run, Budget;
    if |cs| > 0 { RunAllCounts(h, opts, cs[..|cs| - 1], depth, seen, catching); }
  }

  lemma ErrorsHaveCauses(h: Heap, n: nat)
    requires n < |h| && Closed(h, h[n].body) && !IsLeaf(h, n) && h[n].body.ErrorBody?
    ensures HasCause(h[n].body) && ValidRef(h, h[n].body.cause.value)
  {
  }

  lemma {:induction false} RunAllsAgree(
    h1: Heap, h2: Heap, p: set<nat>, opts: Options, cs1: seq<Child>, cs2: seq<Child>, depth: nat, seen: set<nat>,
    catching: bool)
    requires WellFormed(h1) && WellFormed(h2) && SameOutsideSecrets(h1, h2, p)
    requires opts.sanitizeValues && NothingExposed(h1, opts, p) && AllAlike(opts, p, cs1, cs2)
    requires forall i | 0 <= i < |cs1| :: ValidRef(h1, cs1[i].value)
    requires forall i | 0 <= i < |cs2| :: ValidRef(h2, cs2[i].value)
    ensures RunAll(h1, opts, cs1, depth, seen, catching) == RunAll(h2, opts, cs2, depth, seen, catching)
    decreases Budget(h1, opts, depth, seen), 1, |cs1|
  {
    hide Run, Budget, SameOutsideSecrets, Alike, WellFormed, NothingExposed;
    if |cs1| > 0 {
      var last := |cs1| - 1;
      RunAllsAgree(h1, h2, p, opts, cs1[..last], cs2[..last], depth, seen, catching);
      var (before, mid) := RunAll(h1, opts, cs1[..last], depth, seen, catching);
      BudgetFalls(h1, opts, depth, seen, mid);
      RunsAgree(h1, h2, p, opts, cs1[last], cs2[last], depth, mid);
    }
  }

  /** Graphs that agree outside their secrets are rendered alike, if nothing that leads to a secret is handed over. */
  lemma {:induction false} SecretsAreHidden(h1: Heap, h2: Heap, p: set<nat>, opts: Options, v: Value)
    requires WellFormed(h1) && WellFormed(h2) && ValidRef(h1, v) && ValidRef(h2, v)
    requires SameOutsideSecrets(h1, h2, p) && Public(v, p)
    requires opts.sanitizeValues && NothingExposed(h1, opts, p)
    ensures SanitizeLogValue(h1, opts, v) == SanitizeLogValue(h2, opts, v)
  {
    hide Run, WellFormed, SameOutsideSecrets, NothingExposed;
    RunsAgree(h1, h2, p, opts, Child(Unkeyed, v), Child(Unkeyed, v), 0, {});
  }
}
