/**
 * Log values as a finite graph of nodes, and the sanitizer's recursion over it. The recursion threads
 * the shared `seen` set exactly as the code does, exceptions included: an invalid date throws; arrays,
 * maps and sets let the exception pass, and objects catch it.
 */
module SanitizerModel {
  import opened Wrappers

  const MAX_STRING_LENGTH := 256
  const MAX_ARRAY_ITEMS := 50
  const MAX_OBJECT_KEYS := 100
  const MAX_DEPTH := 8
  const BINARY_PREVIEW_BYTES := 16
  const TRUNCATION_SUFFIX := "...[truncated]"

  const CLASS_ERROR := "Cannot destructure property 'name' of 'object.constructor'"
  const SYMBOL_ERROR := "Cannot convert a Symbol value to a string"
  const TEXT_ERROR := "Cannot convert object to primitive value"

  // Values.

  datatype Value =
    | Text(s: string)
    | Number(text: string)
    | Boolean(b: bool)
    | Absent(text: string) // null or undefined
    | BigInt(digits: string)
    | Symbol(text: string)
    | Function(name: string, source: string)
    | Ref(node: nat)

  datatype Body =
    | MapBody(entries: seq<(Value, Value)>)
    | SetBody(values: seq<Value>)
    | ArrayBody(items: seq<Value>)
    // the name of its class, None where it has no class, and its own fields
    | ObjectBody(className: Option<Value>, fields: seq<(string, Value)>)
    | ErrorBody(constructorName: string, name: string, message: string, stack: Option<string>, cause: Option<Value>)
    | DateBody(iso: Option<string>) // None is an invalid date
    | BinaryBody(kind: string, bytes: Bytes)

  /** A node and what `String(node)` gives, if it does not throw. */
  datatype Node = Node(text: Option<string>, body: Body)

  type Heap = seq<Node>

  datatype Options = Options(sanitizeValues: bool, summarizeBinary: bool)

  // Output.

  datatype Out =
    | OText(s: string)
    | OPlain(v: Value)
    | ORedacted
    | OCircular
    | OMaxDepth(kind: string, size: Option<nat>)
    | OCount(n: nat)
    | OSeq(items: seq<Out>)
    | ORecord(fields: map<string, Out>)
    | OBinary(kind: string, byteLength: nat, preview: seq<Value>, truncated: bool)
    | ORawBytes(kind: string, bytes: Bytes)
    | ORaw(node: nat, exposed: map<nat, Node>) // the node itself, with all it leads to
    | ORawBuffer(data: nat, exposed: map<nat, Node>) // type "Buffer" and the data array itself, with all it leads to
    | OUnserializable(message: string)

  datatype Outcome = Done(out: Out) | Thrown(message: string)

  datatype ListOutcome = AllDone(outs: seq<Out>) | ListThrown(message: string)

  /** The key a value is judged by, if there is one; a map key whose text cannot be taken throws. */
  datatype Key = Unkeyed | Keyed(text: string) | Unreadable

  /** A value reached from a node. */
  datatype Child = Child(key: Key, value: Value)

  // Keys and texts.

  predicate Alphanumeric(c: char) { 'a' <= c <= 'z' || 'A' <= c <= 'Z' || '0' <= c <= '9' }

  function Normalize(key: string): string {
    if key == "" then ""
    else if !Alphanumeric(key[0]) then Normalize(key[1..])
    else [if 'A' <= key[0] <= 'Z' then key[0] - 'A' + 'a' else key[0]] + Normalize(key[1..])
  }

  const SENSITIVE_KEY_PARTS := [
    "authorization", "password", "passphrase", "secret", "privatekey", "signingprivatekey", "accesstoken",
    "refreshtoken", "idtoken", "token", "ucan", "credential", "apikey", "keyring", "teamkeyring", "deviceprivatekey"
  ]

  lemma IncludesFits(text: string, part: string)
    requires Includes(text, part)
    ensures |part| < |text| || part == text
  {
  }

  predicate IsSensitiveKey(key: string) {
    var normalized := Normalize(key);
    exists i | 0 <= i < |SENSITIVE_KEY_PARTS| :: Includes(normalized, SENSITIVE_KEY_PARTS[i])
  }

  function TruncateString(s: string): (t: string)
    ensures |t| <= MAX_STRING_LENGTH
  {
    if |s| <= MAX_STRING_LENGTH then s
    else s[..MAX_STRING_LENGTH - |TRUNCATION_SUFFIX|] + TRUNCATION_SUFFIX
  }

  function Truncated(opts: Options, s: string): string {
    if opts.sanitizeValues then TruncateString(s) else s
  }

  predicate ValidRef(h: Heap, v: Value) { v.Ref? ==> v.node < |h| }

  /** `String(v)`, by which map keys are judged; None where it throws. */
  function KeyText(h: Heap, v: Value): Option<string> {
    match v
    case Text(s) => Some(s)
    case Number(t) => Some(t)
    case Boolean(b) => Some(if b then "true" else "false")
    case Absent(t) => Some(t)
    case BigInt(d) => Some(d)
    case Symbol(t) => Some(t)
    case Function(_, source) => Some(source)
    case Ref(n) => if n < |h| then h[n].text else None
  }

  function KeyOf(h: Heap, v: Value): Key {
    match KeyText(h, v)
    case Some(text) => Keyed(text)
    case None => Unreadable
  }

  function PrimitiveOut(opts: Options, v: Value): Out
    requires !v.Ref?
  {
    match v
    case Text(s) => OText(Truncated(opts, s))
    case BigInt(d) => OText(d + "n")
    case Symbol(t) => OText(t)
    case Function(name, _) => OText("[Function " + (if |name| > 0 then name else "anonymous") + "]")
    case _ => OPlain(v)
  }

  function Prefix<T>(opts: Options, limit: nat, s: seq<T>): (p: seq<T>)
    ensures forall x | x in p :: x in s
    ensures |p| <= |s| && forall i | 0 <= i < |p| :: p[i] == s[i]
  {
    if opts.sanitizeValues && |s| > limit then s[..limit] else s
  }

  function WithMarker(opts: Options, outs: seq<Out>, originalLength: nat): seq<Out> {
    if opts.sanitizeValues && originalLength > MAX_ARRAY_ITEMS
    then outs + [OmittedItems(originalLength - MAX_ARRAY_ITEMS)] else outs
  }

  function OmittedItems(n: nat): Out { ORecord(map["type" := OText("TruncatedArray"), "omittedItems" := OCount(n)]) }

  function Field(fields: seq<(string, Value)>, name: string): Option<Value> {
    if fields == [] then None
    else if fields[0].0 == name then Some(fields[0].1)
    else Field(fields[1..], name)
  }

  /** The data array of a record that looks like a serialized Buffer. */
  function SerializedBuffer(h: Heap, fields: seq<(string, Value)>): (data: Option<nat>)
    ensures data.Some? ==> data.value < |h| && h[data.value].body.ArrayBody?
  {
    match (Field(fields, "type"), Field(fields, "data"))
    case (Some(Text(type_)), Some(Ref(n))) =>
      if type_ == "Buffer" && n < |h| && h[n].body.ArrayBody? then Some(n) else None
    case _ => None
  }

  function Unseen(h: Heap, seen: set<nat>): set<nat> { set n | 0 <= n < |h| && n !in seen }

  lemma SubsetSize(a: set<nat>, b: set<nat>)
    requires a <= b
    ensures |a| <= |b| && (a != b ==> |a| < |b|)
  {
    assert b == a + (b - a);
    assert |b| == |a| + |b - a|;
  }

  /** The values a node refers to. */
  function Held(b: Body): seq<Value> {
    match b
    case MapBody(entries) => seq(|entries|, i requires 0 <= i < |entries| => entries[i].0)
                             + seq(|entries|, i requires 0 <= i < |entries| => entries[i].1)
    case SetBody(values) => values
    case ArrayBody(items) => items
    case ObjectBody(name, fields) => seq(|fields|, i requires 0 <= i < |fields| => fields[i].1)
                                     + (if name.Some? then [name.value] else [])
    case ErrorBody(_, _, _, _, cause) => if cause.Some? then [cause.value] else []
    case _ => []
  }

  function Successors(h: Heap, from: set<nat>): set<nat> {
    set n, v | n in from && n < |h| && v in Held(h[n].body) && v.Ref? && v.node < |h| :: v.node
  }

  ghost predicate ClosedUnder(h: Heap, s: set<nat>) { Successors(h, s) <= s }

  /** Every node that references lead to from `s`: the least set that holds `s` and all it refers to. */
  function Reached(h: Heap, s: set<nat>): (r: set<nat>)
    requires forall n | n in s :: n < |h|
    ensures s <= r && ClosedUnder(h, r) && forall n | n in r :: n < |h|
    ensures forall t: set<nat> | s <= t && ClosedUnder(h, t) :: r <= t
    decreases |Unseen(h, s)|
  {
    var next := Successors(h, s);
    if next <= s then s
    else
      UnseenShrinks(h, s, next);
      assert forall t: set<nat> | s <= t && ClosedUnder(h, t) :: s + next <= t by { SuccessorsGrow(h, s); }
      Reached(h, s + next)
  }

  lemma UnseenShrinks(h: Heap, s: set<nat>, more: set<nat>)
    requires (forall n | n in more :: n < |h|) && !(more <= s)
    ensures |Unseen(h, s + more)| < |Unseen(h, s)|
  {
    var n :| n in more && n !in s;
    assert n in Unseen(h, s) && n !in Unseen(h, s + more);
    SubsetSize(Unseen(h, s + more), Unseen(h, s));
  }

  lemma SuccessorsGrow(h: Heap, s: set<nat>)
    ensures forall t: set<nat> | s <= t :: Successors(h, s) <= Successors(h, t)
  {
  }

  /** What a caller holding this array can read. */
  function Exposed(h: Heap, n: nat): (exposed: map<nat, Node>)
    requires n < |h|
  {
    map k | k in Reached(h, {n}) :: h[k]
  }

  function Numbers(items: seq<Value>): seq<Value> {
    if items == [] then []
    else if items[0].Number? then [items[0]] + Numbers(items[1..])
    else Numbers(items[1..])
  }

  /** A copy of `type` and `data` alone, or a summary. The copy's data is the array itself, unsanitized. */
  function DescribeBuffer(h: Heap, opts: Options, n: nat): Out
    requires n < |h| && h[n].body.ArrayBody?
  {
    if !opts.summarizeBinary then ORawBuffer(n, Exposed(h, n))
    else
      var data := h[n].body.items;
      OBinary("Buffer", |data|, Numbers(if |data| > BINARY_PREVIEW_BYTES then data[..BINARY_PREVIEW_BYTES] else data),
              |data| > BINARY_PREVIEW_BYTES)
  }

  function Hex(b: Byte): Value { Number(["0123456789abcdef"[b / 16], "0123456789abcdef"[b % 16]]) }

  function HexPreview(bytes: Bytes): seq<Value> {
    seq(if |bytes| > BINARY_PREVIEW_BYTES then BINARY_PREVIEW_BYTES else |bytes|,
        i requires 0 <= i < |bytes| => Hex(bytes[i]))
  }

  function DescribeBinary(opts: Options, kind: string, bytes: Bytes): Out {
    if opts.summarizeBinary
    then OBinary(kind, |bytes|, HexPreview(bytes), |bytes| > BINARY_PREVIEW_BYTES)
    else ORawBytes(kind, bytes)
  }

  function ErrorFields(opts: Options, e: Body): map<string, Out>
    requires e.ErrorBody?
  {
    var base := map["type" := OText(e.constructorName), "name" := OText(e.name),
                    "message" := OText(Truncated(opts, e.message))];
    if e.stack.Some? then base["stack" := OText(Truncated(opts, e.stack.value))] else base
  }

  // The class name of an object: `object.constructor.name`, where own fields come before inherited ones.

  const UNDEFINED := Absent("undefined")

  /** None where the lookup throws: `constructor` is null, undefined or missing. */
  function ClassOf(h: Heap, b: Body): Option<Value>
    requires b.ObjectBody?
  {
    match Field(b.fields, "constructor")
    case None => b.className
    case Some(v) => NameOf(h, v)
  }

  function NameOf(h: Heap, v: Value): Option<Value> {
    match v
    case Absent(_) => None
    case Function(name, _) => Some(Text(name))
    case Ref(n) =>
      if n >= |h| then None
      else (match h[n].body
            case ObjectBody(_, fields) => Some(Field(fields, "name").GetOr(UNDEFINED))
            case ErrorBody(_, name, _, _, _) => Some(Text(name))
            case _ => Some(UNDEFINED))
    case _ => Some(UNDEFINED)
  }

  /** A value put into the output as it is. */
  function RawOut(h: Heap, v: Value): Out {
    match v
    case Text(s) => OText(s)
    case Ref(n) => if n < |h| then ORaw(n, Exposed(h, n)) else OPlain(v)
    case _ => OPlain(v)
  }

  function FirstFields(h: Heap, b: Body): map<string, Out>
    requires b.ObjectBody?
  {
    match ClassOf(h, b)
    case None => map[]
    case Some(v) => if v == Text("Object") then map[] else map["type" := RawOut(h, v)]
  }

  function WithTruncatedKeys(opts: Options, output: map<string, Out>, keys: nat): map<string, Out> {
    if opts.sanitizeValues && keys > MAX_OBJECT_KEYS
    then output["__truncatedKeys" := OCount(keys - MAX_OBJECT_KEYS)] else output
  }

  // Well-formed graphs.

  predicate HasCause(b: Body) { b.ErrorBody? && b.cause.Some? && !b.cause.value.Absent? }

  predicate Closed(h: Heap, b: Body) {
    match b
    case MapBody(entries) => forall i | 0 <= i < |entries| :: ValidRef(h, entries[i].0) && ValidRef(h, entries[i].1)
    case SetBody(values) => forall i | 0 <= i < |values| :: ValidRef(h, values[i])
    case ArrayBody(items) => forall i | 0 <= i < |items| :: ValidRef(h, items[i])
    case ObjectBody(name, fields) =>
      (name.Some? ==> ValidRef(h, name.value)) && forall i | 0 <= i < |fields| :: ValidRef(h, fields[i].1)
    case ErrorBody(_, _, _, _, cause) => cause.Some? ==> ValidRef(h, cause.value)
    case _ => true
  }

  ghost function CauseRank(h: Heap, rank: seq<nat>, v: Value): nat {
    if v.Ref? && v.node < |h| && v.node < |rank| && h[v.node].body.ErrorBody? then rank[v.node] + 1 else 0
  }

  /** References stay inside the graph, and `rank` falls along error causes. */
  ghost predicate Ranks(h: Heap, rank: seq<nat>) {
    && |rank| == |h|
    && (forall n | 0 <= n < |h| :: Closed(h, h[n].body))
    && (forall n | 0 <= n < |h| && HasCause(h[n].body) :: CauseRank(h, rank, h[n].body.cause.value) <= rank[n])
  }

  /** Cycles and sharing are free, but a chain of error causes ends. */
  ghost predicate WellFormed(h: Heap) { exists rank: seq<nat> :: Ranks(h, rank) }

  ghost function RankOf(h: Heap): (rank: seq<nat>)
    requires WellFormed(h)
    ensures Ranks(h, rank)
  {
    var rank: seq<nat> :| Ranks(h, rank); rank
  }

  // The kinds of node.

  predicate IsLeaf(h: Heap, n: nat)
    requires n < |h|
  {
    match h[n].body
    case BinaryBody(_, _) => true
    case DateBody(_) => true
    case ErrorBody(_, _, _, _, _) => !HasCause(h[n].body)
    case ObjectBody(_, fields) => SerializedBuffer(h, fields).Some?
    case _ => false
  }

  predicate IsContainer(h: Heap, n: nat)
    requires n < |h|
  {
    !IsLeaf(h, n) && !h[n].body.ErrorBody?
  }

  function LeafOutcome(h: Heap, opts: Options, n: nat): Outcome
    requires n < |h| && IsLeaf(h, n)
  {
    match h[n].body
    case BinaryBody(kind, bytes) => Done(DescribeBinary(opts, kind, bytes))
    case DateBody(iso) => if iso.Some? then Done(OText(iso.value)) else Thrown("Invalid time value")
    case ErrorBody(_, _, _, _, _) => Done(ORecord(ErrorFields(opts, h[n].body)))
    case ObjectBody(_, fields) => Done(DescribeBuffer(h, opts, SerializedBuffer(h, fields).value))
  }

  /** The values visited inside a node, in order. A map gives each key and then its value. */
  function Children(h: Heap, opts: Options, n: nat): (cs: seq<Child>)
    requires n < |h| && Closed(h, h[n].body) && !IsLeaf(h, n)
    ensures forall i | 0 <= i < |cs| :: ValidRef(h, cs[i].value)
  {
    match h[n].body
    case MapBody(entries) => EntryChildren(h, Prefix(opts, MAX_ARRAY_ITEMS, entries))
    case SetBody(values) => ItemChildren(Prefix(opts, MAX_ARRAY_ITEMS, values))
    case ArrayBody(items) => ItemChildren(Prefix(opts, MAX_ARRAY_ITEMS, items))
    case ObjectBody(_, fields) => FieldChildren(Prefix(opts, MAX_OBJECT_KEYS, fields))
    case ErrorBody(_, _, _, _, cause) => [Child(Keyed("cause"), cause.value)]
  }

  function ItemChildren(items: seq<Value>): seq<Child> {
    seq(|items|, i requires 0 <= i < |items| => Child(Unkeyed, items[i]))
  }

  function FieldChildren(fields: seq<(string, Value)>): seq<Child> {
    seq(|fields|, i requires 0 <= i < |fields| => Child(Keyed(fields[i].0), fields[i].1))
  }

  function EntryChildren(h: Heap, entries: seq<(Value, Value)>): seq<Child>
  {
    seq(2 * |entries|, i requires 0 <= i < 2 * |entries| =>
      if i % 2 == 0 then Child(Unkeyed, entries[i / 2].0) else Child(KeyOf(h, entries[i / 2].0), entries[i / 2].1))
  }

  /** What a node becomes, given what its children became. */
  function Assemble(h: Heap, opts: Options, b: Body, outs: seq<Out>): Out {
    match b
    case MapBody(entries) => ListRecord("Map", "entries", WithMarker(opts, Pairs(outs), |entries|), |entries|)
    case SetBody(values) => ListRecord("Set", "values", WithMarker(opts, outs, |values|), |values|)
    case ArrayBody(items) => OSeq(WithMarker(opts, outs, |items|))
    case ObjectBody(_, fields) =>
      ORecord(WithTruncatedKeys(opts, PutAll(FirstFields(h, b), fields, outs), |fields|))
    case ErrorBody(_, _, _, _, _) =>
      ORecord(if |outs| > 0 then ErrorFields(opts, b)["cause" := outs[0]] else ErrorFields(opts, b))
    case _ => ORecord(map[])
  }

  function ListRecord(kind: string, field: string, outs: seq<Out>, size: nat): Out {
    ORecord(map["type" := OText(kind), "size" := OCount(size), field := OSeq(outs)])
  }

  function Pairs(outs: seq<Out>): seq<Out> {
    seq(|outs| / 2, i requires 0 <= i < |outs| / 2 => OSeq([outs[2 * i], outs[2 * i + 1]]))
  }

  function PutAll(output: map<string, Out>, fields: seq<(string, Value)>, outs: seq<Out>): map<string, Out> {
    if outs == [] || |fields| < |outs| then output
    else PutAll(output, fields[..|outs| - 1], outs[..|outs| - 1])[fields[|outs| - 1].0 := outs[|outs| - 1]]
  }

  /** A container that is not entered: arrays give a one-element array, the others the marker itself. */
  function Refused(b: Body, marker: Out): Out { if b.ArrayBody? then OSeq([marker]) else marker }

  /** A container reached at the depth limit. An object's class name may not be text. */
  function DepthOutcome(h: Heap, b: Body): Outcome {
    match b
    case MapBody(entries) => Done(OMaxDepth("Map size", Some(|entries|)))
    case SetBody(values) => Done(OMaxDepth("Set size", Some(|values|)))
    case ArrayBody(items) => Done(OSeq([OMaxDepth("Array length", Some(|items|))]))
    case ObjectBody(_, _) => (match ClassOf(h, b)
                              case None => Thrown(CLASS_ERROR)
                              case Some(Symbol(_)) => Thrown(SYMBOL_ERROR)
                              case Some(v) => NamedDepth(KeyText(h, v)))
    case _ => Done(OMaxDepth("", None))
  }

  function NamedDepth(text: Option<string>): Outcome {
    match text
    case Some(t) => Done(OMaxDepth(t, None))
    case None => Thrown(TEXT_ERROR)
  }

  /** Whether a container that is not yet open can be entered or refused at all. */
  predicate Opens(h: Heap, b: Body) { b.ObjectBody? ==> ClassOf(h, b).Some? }

  // Termination.

  /** How much deeper the recursion may go: depth left, or containers not yet on the path. */
  function Budget(h: Heap, opts: Options, depth: nat, seen: set<nat>): nat {
    if opts.sanitizeValues then (if depth >= MAX_DEPTH then 0 else MAX_DEPTH - depth) else |Unseen(h, seen)|
  }

  lemma BudgetFalls(h: Heap, opts: Options, depth: nat, seen: set<nat>, deeper: set<nat>)
    requires seen <= deeper
    ensures Budget(h, opts, depth, deeper) <= Budget(h, opts, depth, seen)
    ensures Budget(h, opts, depth + 1, deeper) <= Budget(h, opts, depth, seen)
  {
    SubsetSize(Unseen(h, deeper), Unseen(h, seen));
  }

  lemma BudgetFallsInside(h: Heap, opts: Options, depth: nat, seen: set<nat>, n: nat)
    requires n < |h| && n !in seen && (opts.sanitizeValues ==> depth < MAX_DEPTH)
    ensures Budget(h, opts, depth + 1, seen + {n}) < Budget(h, opts, depth, seen)
  {
    assert n in Unseen(h, seen) && n !in Unseen(h, seen + {n});
    SubsetSize(Unseen(h, seen + {n}), Unseen(h, seen));
  }

  // The recursion.

  predicate Redacts(opts: Options, key: Key) {
    opts.sanitizeValues && key.Keyed? && IsSensitiveKey(key.text)
  }

  predicate TooDeep(opts: Options, depth: nat) { opts.sanitizeValues && depth >= MAX_DEPTH }

  function Caught(outcome: Outcome): Out {
    match outcome
    case Done(out) => out
    case Thrown(message) => OUnserializable(message)
  }

  function Run(h: Heap, opts: Options, c: Child, depth: nat, seen: set<nat>): (r: (Outcome, set<nat>))
    requires WellFormed(h) && ValidRef(h, c.value)
    ensures seen <= r.1
    decreases Budget(h, opts, depth, seen), 0, CauseRank(h, RankOf(h), c.value)
  {
    if c.key.Unreadable? then (Thrown(TEXT_ERROR), seen)
    else if Redacts(opts, c.key) then (Done(ORedacted), seen)
    else if !c.value.Ref? then (Done(PrimitiveOut(opts, c.value)), seen)
    else if IsLeaf(h, c.value.node) then (LeafOutcome(h, opts, c.value.node), seen)
    else
      var n, b := c.value.node, h[c.value.node].body;
      assert Ranks(h, RankOf(h));
      if b.ErrorBody? then
        BudgetFalls(h, opts, depth, seen, seen);
        var (inner, after) := Run(h, opts, Child(Keyed("cause"), b.cause.value), depth + 1, seen);
        (if inner.Thrown? then inner else Done(Assemble(h, opts, b, [inner.out])), after)
      else if n in seen then (Done(Refused(b, OCircular)), seen)
      else if !Opens(h, b) then (Thrown(CLASS_ERROR), seen)
      else if TooDeep(opts, depth) then (DepthOutcome(h, b), seen)
      else
        BudgetFallsInside(h, opts, depth, seen, n);
        var (inner, after) := RunAll(h, opts, Children(h, opts, n), depth + 1, seen + {n}, b.ObjectBody?);
        if inner.ListThrown? then (Thrown(inner.message), after)
        else (Done(Assemble(h, opts, b, inner.outs)), after - {n})
  }

  /** Children one after another. An exception ends the list unless the container is an object. */
  function RunAll(h: Heap, opts: Options, cs: seq<Child>, depth: nat, seen: set<nat>, catching: bool)
    : (r: (ListOutcome, set<nat>))
    requires WellFormed(h) && forall i | 0 <= i < |cs| :: ValidRef(h, cs[i].value)
    ensures seen <= r.1 && (catching ==> r.0.AllDone?)
    decreases Budget(h, opts, depth, seen), 1, |cs|
  {
    if cs == [] then (AllDone([]), seen)
    else
      var (before, mid) := RunAll(h, opts, cs[..|cs| - 1], depth, seen, catching);
      if before.ListThrown? then (before, mid)
      else
        BudgetFalls(h, opts, depth, seen, mid);
        var (last, after) := Run(h, opts, cs[|cs| - 1], depth, mid);
        (if last.Thrown? && !catching then ListThrown(last.message) else AllDone(before.outs + [Caught(last)]), after)
  }

  /** The whole sanitizer. */
  function SanitizeLogValue(h: Heap, opts: Options, v: Value): Outcome
    requires WellFormed(h) && ValidRef(h, v)
  {
    Run(h, opts, Child(Unkeyed, v), 0, {}).0
  }
}
