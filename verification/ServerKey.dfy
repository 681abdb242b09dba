/**
 * Agreement on the server encryption key. Any number of instances initialise it concurrently against a
 * secrets backend that creates a secret only if it is absent; reads may fail, and a create may take
 * effect, at once or later, although its caller was told it failed.
 */
module ServerKey {
  import opened Wrappers
  import opened AwsSecrets

  type Key = seq<Byte>

  /** Text encoding of keys in the backend. */
  datatype Codec = Codec(toText: Key -> string, fromText: string -> Key) {
    ghost predicate Lossless() { forall k: Key :: fromText(toText(k)) == k }
  }

  datatype Phase =
    | Reading
    | Creating(key: Key)
    | Lost(key: Key)
    | Finished

  datatype Call = Call(instance: nat, phase: Phase)

  /** The stored secret, the key each instance has cached, and the initialisation calls in progress. */
  datatype State = State(stored: Option<string>, cached: map<nat, Key>, calls: map<nat, Call>)

  datatype Step =
    | Begin(call: nat, instance: nat)
    | Read(call: nat, ok: bool, generated: Key)
    | Create(call: nat, effective: bool, reported: bool)
    | Land(call: nat)

  const Initial := State(None, map[], map[])

  predicate Enabled(s: State, step: Step) {
    match step
    case Begin(call, _) => call !in s.calls
    case Read(call, _, _) => call in s.calls && s.calls[call].phase.Reading?
    case Create(call, effective, reported) =>
      && call in s.calls && s.calls[call].phase.Creating?
      && (effective ==> s.stored == None) && (reported ==> effective)
    case Land(call) => call in s.calls && s.calls[call].phase.Lost? && s.stored == None
  }

  function Apply(s: State, step: Step, codec: Codec): State
    requires Enabled(s, step)
  {
    match step
    case Begin(call, instance) =>
      s.(calls := s.calls[call := Call(instance, if instance in s.cached then Finished else Reading)])
    case Read(call, ok, generated) =>
      var instance := s.calls[call].instance;
      if !ok then s.(calls := s.calls[call := Call(instance, Finished)])
      else if s.stored == None then s.(calls := s.calls[call := Call(instance, Creating(generated))])
      else s.(cached := s.cached[instance := codec.fromText(s.stored.value)],
              calls := s.calls[call := Call(instance, Finished)])
    case Create(call, effective, reported) =>
      var instance, key := s.calls[call].instance, s.calls[call].phase.key;
      State(if effective then Some(codec.toText(key)) else s.stored,
            if reported then s.cached[instance := key] else s.cached,
            s.calls[call := Call(instance, if reported then Finished else Lost(key))])
    case Land(call) =>
      var instance, key := s.calls[call].instance, s.calls[call].phase.key;
      s.(stored := Some(codec.toText(key)), calls := s.calls[call := Call(instance, Finished)])
  }

  ghost predicate Runs(s: State, steps: seq<Step>, codec: Codec)
    decreases |steps|
  {
    steps != [] ==> Enabled(s, steps[0]) && Runs(Apply(s, steps[0], codec), steps[1..], codec)
  }

  ghost function After(s: State, steps: seq<Step>, codec: Codec): State
    requires Runs(s, steps, codec)
    decreases |steps|
  {
    if steps == [] then s else After(Apply(s, steps[0], codec), steps[1..], codec)
  }

  /** Every cached key is the stored one. */
  ghost predicate Agreed(s: State, codec: Codec) {
    forall i | i in s.cached :: s.stored.Some? && s.cached[i] == codec.fromText(s.stored.value)
  }

  lemma InitialAgrees(codec: Codec)
    ensures Agreed(Initial, codec)
  {
  }

  lemma StepKeepsAgreed(s: State, step: Step, codec: Codec)
    requires codec.Lossless() && Agreed(s, codec) && Enabled(s, step)
    ensures Agreed(Apply(s, step, codec), codec)
    ensures s.stored.Some? ==> Apply(s, step, codec).stored == s.stored
    ensures forall i | i in s.cached ::
              i in Apply(s, step, codec).cached && Apply(s, step, codec).cached[i] == s.cached[i]
  {
  }

  /** Over every run at most one key is ever stored, every cached key is that key, and none is ever replaced. */
  lemma {:induction false} KeysAgree(s: State, steps: seq<Step>, codec: Codec)
    requires codec.Lossless() && Agreed(s, codec) && Runs(s, steps, codec)
    ensures var t := After(s, steps, codec);
            && Agreed(t, codec)
            && (s.stored.Some? ==> t.stored == s.stored)
            && (forall i | i in s.cached :: i in t.cached && t.cached[i] == s.cached[i])
    decreases |steps|
  {
    if steps != [] {
      StepKeepsAgreed(s, steps[0], codec);
      KeysAgree(Apply(s, steps[0], codec), steps[1..], codec);
    }
  }

  /** An authenticated cipher under a nonce: opening with the sealing key and nonce gives the message back. */
  datatype Cipher = Cipher(seal: (Bytes, Bytes, Key) -> Bytes, open: (Bytes, Bytes, Key) -> Option<Bytes>) {
    ghost predicate RoundTrips() {
      forall m: Bytes, n: Bytes, k: Key :: open(seal(m, n, k), n, k) == Some(m)
    }
  }

  /** What one instance encrypted at one time, any instance that has the key decrypts at any later time. */
  lemma AnyInstanceDecrypts(
    s: State, steps: seq<Step>, codec: Codec, cipher: Cipher, sealer: nat, opener: nat, message: Bytes, nonce: Bytes)
    requires codec.Lossless() && cipher.RoundTrips() && Agreed(s, codec) && Runs(s, steps, codec)
    requires sealer in s.cached && opener in After(s, steps, codec).cached
    ensures var sealed := cipher.seal(message, nonce, s.cached[sealer]);
            cipher.open(sealed, nonce, After(s, steps, codec).cached[opener]) == Some(message)
  {
    KeysAgree(s, steps, codec);
    var t := After(s, steps, codec);
    assert t.cached[sealer] == codec.fromText(t.stored.value) && t.cached[opener] == codec.fromText(t.stored.value);
  }

  // The service's own call, against the protocol.

  /** One initialisation call from its read on: the answer it gets, and the create if there was nothing to read. */
  function Initialised(
    s: State, call: nat, ok: bool, generated: Key, effective: bool, reported: bool, codec: Codec): State
    requires Enabled(s, Read(call, ok, generated)) && (reported ==> effective)
  {
    var t := Apply(s, Read(call, ok, generated), codec);
    if Enabled(t, Create(call, effective, reported)) then Apply(t, Create(call, effective, reported), codec) else t
  }

  /** A call on an instance that has a key is over at once, with nothing read or created; others begin by reading. */
  lemma CachedKeyNeedsNoRead(s: State, call: nat, instance: nat, codec: Codec)
    requires call !in s.calls
    ensures var t := Apply(s, Begin(call, instance), codec);
            && t.stored == s.stored && t.cached == s.cached
            && t.calls == s.calls[call := Call(instance, if instance in s.cached then Finished else Reading)]
            && (instance in s.cached ==> forall step: Step | step.call == call :: !Enabled(t, step))
  {
  }

  /** What the protocol says an instance has cached. */
  function CachedBy(s: State, instance: nat): Option<Key> {
    if instance in s.cached then Some(s.cached[instance]) else None
  }

  /** A state in which this call is about to read for an instance that has no key, and reads this. */
  ghost predicate AboutToRead(s: State, call: nat, secret: Result<Option<string>, AwsError>) {
    && call in s.calls && s.calls[call].phase == Reading && s.calls[call].instance !in s.cached
    && (secret.Success? ==> secret.value == s.stored)
  }

  /** The key an instance ends up with is the one the protocol's read and create cache for it, from every state. */
  ghost predicate IsProtocolKey(
    secret: Result<Option<string>, AwsError>, codec: Codec, generated: Key, created: bool, key: Option<Key>)
  {
    forall s, call, effective | AboutToRead(s, call, secret) && (created ==> effective) ::
      CachedBy(Initialised(s, call, secret.Success?, generated, effective, created, codec), s.calls[call].instance)
      == key
  }

  lemma StoredKeyIsProtocolKey(text: string, codec: Codec, generated: Key, created: bool)
    ensures IsProtocolKey(Success(Some(text)), codec, generated, created, Some(codec.fromText(text)))
  {
  }

  lemma AbsentKeyIsProtocolKey(codec: Codec, generated: Key, created: bool)
    ensures IsProtocolKey(Success(None), codec, generated, created, if created then Some(generated) else None)
  {
  }

  lemma FailedReadIsProtocolKey(e: AwsError, codec: Codec, generated: Key, created: bool)
    ensures IsProtocolKey(Failure(e), codec, generated, created, None)
  {
  }

  /** One instance of the service; `answers`, `generated` and `created` are what the backend and the generator say. */
  class ServerKeyManager {
    var serverEncKey: Option<Key>

    constructor ()
      ensures serverEncKey == None
    {
      serverEncKey := None;
    }

    /**
     * Returns whether initialisation succeeded; when it did not, no key is cached. A stored key wins over
     * whatever is generated, and a generated one counts only when nothing is stored and its create succeeded.
     */
    method InitOrRetrieveServerEncKey(secretName: string, codec: Codec, answers: seq<Answer>, generated: Key,
        created: bool)
      returns (ok: bool)
      requires |answers| >= GET_SECRET_MAX_ATTEMPTS
      modifies this
      ensures ok == serverEncKey.Some?
      ensures old(serverEncKey).Some? ==> serverEncKey == old(serverEncKey)
      ensures old(serverEncKey) == None && codec.Lossless() ==>
        forall k: Key :: ReadsAs(secretName, answers, Success(Some(codec.toText(k)))) ==> serverEncKey == Some(k)
      ensures old(serverEncKey) == None && ReadsAs(secretName, answers, Success(None)) ==>
        serverEncKey == if created then Some(generated) else None
      ensures old(serverEncKey) == None && (exists e :: ReadsAs(secretName, answers, Failure(e))) ==>
        serverEncKey == None
      ensures old(serverEncKey) == None ==>
        forall secret | ReadsAs(secretName, answers, secret) ::
          IsProtocolKey(secret, codec, generated, created, serverEncKey)
    {
      hide ReadsAs, IsProtocolKey;
      if serverEncKey.Some? {
        return true;
      }
      var secret := Get(secretName, answers);
      forall other | ReadsAs(secretName, answers, other) ensures other == secret {
        ReadingIsUnique(secretName, answers, other, secret);
      }
      if secret.Failure? {
        FailedReadIsProtocolKey(secret.error, codec, generated, created);
        return false;
      }
      if secret.value == None {
        AbsentKeyIsProtocolKey(codec, generated, created);
        if !created {
          return false;
        }
        serverEncKey := Some(generated);
      } else {
        StoredKeyIsProtocolKey(secret.value.value, codec, generated, created);
        serverEncKey := Some(codec.fromText(secret.value.value));
      }
      return true;
    }
  }
}
