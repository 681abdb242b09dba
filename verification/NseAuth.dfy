/**
 * The notification extension's challenge table, as the service keeps it: challenges are issued with
 * an expiry, consumed by the synchronous first part of a token request, and swept when stale.
 */
module NseAuth {
  import opened Wrappers
  import opened Base58

  const CHALLENGE_TTL_MS := 30_000

  datatype ChallengePayload = ChallengePayload(name: string, nonce: string, timestamp: int)

  datatype StoredChallenge = StoredChallenge(challenge: ChallengePayload, teamId: string, expiry: int)

  type Challenges = map<string, StoredChallenge>

  datatype Proof = Proof(signature: string, publicKey: string)

  datatype AuthError =
    | CryptoNotReady
    | ExpiredOrNotFound
    | DeviceMismatch
    | InvalidProofText
    | NoRegisteredKey
    | InvalidRegisteredKey
    | KeyMismatch
    | InvalidSignature
    | VerifierThrew
    | SigningFailed

  /** Challenges that have not expired. */
  function Live(challenges: Challenges, now: int): Challenges {
    map id | id in challenges && challenges[id].expiry >= now :: challenges[id]
  }

  /** What a token request carries over its first await: the challenge it consumed and its decoded proof. */
  datatype Admission = Admission(stored: StoredChallenge, signature: seq<int>, publicKey: seq<int>)

  /** How the synchronous part of a token request answers. */
  function Admit(challenges: Challenges, ready: bool, id: string, deviceId: string, proof: Proof, now: int)
    : Result<Admission, AuthError>
  {
    if !ready then Failure(CryptoNotReady)
    else if id !in challenges || challenges[id].expiry < now then Failure(ExpiredOrNotFound)
    else if challenges[id].challenge.name != deviceId then Failure(DeviceMismatch)
    else if !ValidText(proof.signature) || !ValidText(proof.publicKey) then Failure(InvalidProofText)
    else Success(Admission(challenges[id], Decoded(proof.signature), Decoded(proof.publicKey)))
  }

  /** Signature verification of the packed challenge under raw key bytes; it may also throw. */
  datatype Verdict = Valid | Invalid | Threw

  type Verifier = (seq<int>, ChallengePayload, seq<int>) -> Verdict

  /** The part of a token request between its two awaits, given the registered key's text. */
  function CheckProof(a: Admission, registered: Option<string>, verify: Verifier): Result<(), AuthError> {
    match registered
    case None => Failure(NoRegisteredKey)
    case Some(key) =>
      if !ValidText(key) then Failure(InvalidRegisteredKey)
      else if a.publicKey != Decoded(key) then Failure(KeyMismatch)
      else
        match verify(a.signature, a.stored.challenge, Decoded(key))
        case Valid => Success(())
        case Invalid => Failure(InvalidSignature)
        case Threw => Failure(VerifierThrew)
  }

  /** A proof passes only with the text of the registered key itself, and a signature valid under it. */
  lemma AcceptedProofNamesRegisteredKey(
    challenges: Challenges, id: string, deviceId: string, proof: Proof, now: int, registered: Option<string>,
    verify: Verifier)
    requires Admit(challenges, true, id, deviceId, proof, now).Success?
    ensures CheckProof(Admit(challenges, true, id, deviceId, proof, now).value, registered, verify).Success? <==>
              && registered == Some(proof.publicKey)
              && verify(Decoded(proof.signature), challenges[id].challenge, Decoded(proof.publicKey)) == Valid
  {
    hide Decoded;
    if registered.Some? && ValidText(registered.value) && Decoded(proof.publicKey) == Decoded(registered.value) {
      DecodeIsInjective(proof.publicKey, registered.value);
    }
  }

  /** Every other proof is refused for one reason, by the registered key's text and the verifier's verdict. */
  lemma RefusedProofNamesReason(
    challenges: Challenges, id: string, deviceId: string, proof: Proof, now: int, registered: Option<string>,
    verify: Verifier)
    requires Admit(challenges, true, id, deviceId, proof, now).Success?
    ensures var answer := CheckProof(Admit(challenges, true, id, deviceId, proof, now).value, registered, verify);
            var verdict := verify(Decoded(proof.signature), challenges[id].challenge, Decoded(proof.publicKey));
            && (answer == Failure(NoRegisteredKey) <==> registered == None)
            && (answer == Failure(InvalidRegisteredKey) <==> registered.Some? && !ValidText(registered.value))
            && (answer == Failure(KeyMismatch) <==>
                  registered.Some? && ValidText(registered.value) && registered.value != proof.publicKey)
            && (answer == Failure(InvalidSignature) <==> registered == Some(proof.publicKey) && verdict == Invalid)
            && (answer == Failure(VerifierThrew) <==> registered == Some(proof.publicKey) && verdict == Threw)
  {
    hide Decoded;
    if registered.Some? && ValidText(registered.value) && Decoded(proof.publicKey) == Decoded(registered.value) {
      DecodeIsInjective(proof.publicKey, registered.value);
    }
  }

  class NseAuthService {
    var challenges: Challenges
    var sodiumReady: bool

    constructor ()
      ensures challenges == map[] && !sodiumReady
    {
      challenges, sodiumReady := map[], false;
    }

    method EvictExpiredChallenges(now: int)
      modifies this`challenges
      ensures challenges == Live(old(challenges), now)
    {
      var ids := challenges.Keys;
      ghost var before := challenges;
      while ids != {}
        invariant ids <= challenges.Keys <= before.Keys
        invariant forall id | id in challenges :: challenges[id] == before[id]
        invariant forall id | id in before.Keys - ids :: id in challenges <==> before[id].expiry >= now
        decreases |ids|
      {
        var id :| id in ids;
        if challenges[id].expiry < now {
          challenges := challenges - {id};
        }
        ids := ids - {id};
      }
    }

    /** `id` and `nonceBytes` are random; `stampedAt` and `storedAt` are two readings of the clock. */
    method IssueChallenge(
      deviceId: string, teamId: string, id: string, nonceBytes: Bytes, now: int, stampedAt: int, storedAt: int)
      returns (challenge: ChallengePayload)
      requires nonceBytes != []
      modifies this`challenges
      ensures challenge == ChallengePayload(deviceId, Encoded(nonceBytes), stampedAt)
      ensures var stored := StoredChallenge(challenge, teamId, storedAt + CHALLENGE_TTL_MS);
              challenges == Live(old(challenges), now)[id := stored]
    {
      EvictExpiredChallenges(now);
      var nonce := Base58Encode(nonceBytes);
      challenge := ChallengePayload(deviceId, nonce.value, stampedAt);
      challenges := challenges[id := StoredChallenge(challenge, teamId, storedAt + CHALLENGE_TTL_MS)];
    }

    /**
     * Up to the first await. The request goes on if and only if the challenge is there, has not expired, is this
     * device's, and the proof is written in valid text. Whatever the answer, a ready service never keeps it.
     */
    method BeginToken(id: string, deviceId: string, proof: Proof, now: int)
      returns (admitted: Result<Admission, AuthError>)
      modifies this`challenges
      ensures admitted.Success? <==>
        && sodiumReady && id in old(challenges) && now <= old(challenges)[id].expiry
        && old(challenges)[id].challenge.name == deviceId && ValidText(proof.signature) && ValidText(proof.publicKey)
      ensures admitted.Success? ==>
        admitted.value == Admission(old(challenges)[id], Decoded(proof.signature), Decoded(proof.publicKey))
      ensures admitted == Failure(CryptoNotReady) <==> !sodiumReady
      ensures admitted == Failure(ExpiredOrNotFound) <==>
        sodiumReady && (id in old(challenges) ==> old(challenges)[id].expiry < now)
      ensures admitted == Failure(DeviceMismatch) <==>
        && sodiumReady && id in old(challenges) && now <= old(challenges)[id].expiry
        && old(challenges)[id].challenge.name != deviceId
      ensures admitted == Admit(old(challenges), sodiumReady, id, deviceId, proof, now)
      ensures challenges == if sodiumReady then old(challenges) - {id} else old(challenges)
    {
      hide Decoded;
      if !sodiumReady {
        return Failure(CryptoNotReady);
      }
      if id !in challenges || challenges[id].expiry < now {
        challenges := challenges - {id};
        return Failure(ExpiredOrNotFound);
      }
      var stored := challenges[id];
      if stored.challenge.name != deviceId {
        challenges := challenges - {id};
        return Failure(DeviceMismatch);
      }
      challenges := challenges - {id};
      var signature := Base58Decode(proof.signature);
      var publicKey := Base58Decode(proof.publicKey);
      if signature.Failure? || publicKey.Failure? {
        return Failure(InvalidProofText);
      }
      return Success(Admission(stored, signature.value, publicKey.value));
    }
  }
}
