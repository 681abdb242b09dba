/** Every interleaving of token requests at their await points, with issuing and sweeping in between. */
module ChallengeProtocol {
  import opened Wrappers
  import opened Base58
  import opened NseAuth

  datatype Token = Token(deviceId: string, teamId: string)

  /** A token request. Each phase remembers the challenge it consumed and when. */
  datatype Request =
    | AwaitingKey(id: string, admission: Admission, consumedAt: int, deviceId: string)
    | AwaitingSignature(id: string, stored: StoredChallenge, consumedAt: int, deviceId: string)
    | Refused(error: AuthError)
    | Granted(id: string, token: Token, consumedAt: int)

  datatype State = State(challenges: Challenges, requests: map<nat, Request>, issued: Challenges)

  datatype Step =
    | Issue(id: string, challenge: ChallengePayload, teamId: string, now: int, storedAt: int)
    | Sweep(now: int)
    | Begin(req: nat, id: string, deviceId: string, proof: Proof, now: int)
    | KeyResolved(req: nat, registered: Option<string>)
    | Signed(req: nat, ok: bool)

  const Initial := State(map[], map[], map[])

  ghost predicate Enabled(s: State, step: Step) {
    match step
    case Issue(_, _, _, now, storedAt) => now <= storedAt
    case Sweep(_) => true
    case Begin(req, _, _, _, _) => req !in s.requests
    case KeyResolved(req, _) => req in s.requests && s.requests[req].AwaitingKey?
    case Signed(req, _) => req in s.requests && s.requests[req].AwaitingSignature?
  }

  /** One step; `sweeping` false is the same service with every eviction left out. */
  function Apply(s: State, step: Step, sweeping: bool, verify: Verifier): State
    requires Enabled(s, step)
  {
    match step
    case Issue(id, challenge, teamId, now, storedAt) =>
      var stored := StoredChallenge(challenge, teamId, storedAt + CHALLENGE_TTL_MS);
      var kept := if sweeping then Live(s.challenges, now) else s.challenges;
      s.(challenges := kept[id := stored], issued := s.issued[id := stored])
    case Sweep(now) => s.(challenges := if sweeping then Live(s.challenges, now) else s.challenges)
    case Begin(req, id, deviceId, proof, now) =>
      var request := match Admit(s.challenges, true, id, deviceId, proof, now)
                     case Success(admission) => AwaitingKey(id, admission, now, deviceId)
                     case Failure(error) => Refused(error);
      s.(challenges := s.challenges - {id}, requests := s.requests[req := request])
    case KeyResolved(req, registered) =>
      var r := s.requests[req];
      var request := match CheckProof(r.admission, registered, verify)
                     case Success(_) => AwaitingSignature(r.id, r.admission.stored, r.consumedAt, r.deviceId)
                     case Failure(error) => Refused(error);
      s.(requests := s.requests[req := request])
    case Signed(req, ok) =>
      var r := s.requests[req];
      var request := if ok then Granted(r.id, Token(r.deviceId, r.stored.teamId), r.consumedAt)
                     else Refused(SigningFailed);
      s.(requests := s.requests[req := request])
  }

  ghost predicate Runs(s: State, steps: seq<Step>, sweeping: bool, verify: Verifier)
    decreases |steps|
  {
    steps != [] ==> Enabled(s, steps[0]) && Runs(Apply(s, steps[0], sweeping, verify), steps[1..], sweeping, verify)
  }

  ghost function After(s: State, steps: seq<Step>, sweeping: bool, verify: Verifier): State
    requires Runs(s, steps, sweeping, verify)
    decreases |steps|
  {
    if steps == [] then s else After(Apply(s, steps[0], sweeping, verify), steps[1..], sweeping, verify)
  }

  // One token per challenge.

  predicate Holds(r: Request) { !r.Refused? }

  /** A request past its first part holds a challenge that was issued to its device and is gone from the table. */
  ghost predicate HoldsIssued(s: State, r: Request) {
    Holds(r) ==>
      && r.id in s.issued && r.id !in s.challenges && r.consumedAt <= s.issued[r.id].expiry
      && (r.AwaitingKey? ==> r.admission.stored == s.issued[r.id] && r.deviceId == s.issued[r.id].challenge.name)
      && (r.AwaitingSignature? ==> r.stored == s.issued[r.id] && r.deviceId == s.issued[r.id].challenge.name)
      && (r.Granted? ==> r.token == Token(s.issued[r.id].challenge.name, s.issued[r.id].teamId))
  }

  ghost predicate OneShot(s: State) {
    && (forall id | id in s.challenges :: id in s.issued && s.issued[id] == s.challenges[id])
    && (forall a | a in s.requests :: HoldsIssued(s, s.requests[a]))
    && (forall a, b | a in s.requests && b in s.requests && Holds(s.requests[a]) && Holds(s.requests[b]) ::
          s.requests[a].id == s.requests[b].id ==> a == b)
  }

  /** Challenge ids are random: none is issued twice. */
  ghost predicate Fresh(s: State, step: Step) { step.Issue? ==> step.id !in s.issued }

  ghost predicate FreshRun(s: State, steps: seq<Step>, sweeping: bool, verify: Verifier)
    requires Runs(s, steps, sweeping, verify)
    decreases |steps|
  {
    steps != [] ==> Fresh(s, steps[0]) && FreshRun(Apply(s, steps[0], sweeping, verify), steps[1..], sweeping, verify)
  }

  lemma StepKeepsOneShot(s: State, step: Step, sweeping: bool, verify: Verifier)
    requires OneShot(s) && Enabled(s, step) && Fresh(s, step)
    ensures OneShot(Apply(s, step, sweeping, verify))
  {
    hide CheckProof, ValidText, Decoded;
  }

  /**
   * In every run, a challenge yields at most one token. The token carries the device and team the
   * challenge was issued for, and the challenge was consumed no later than its expiry.
   */
  lemma {:induction false} TokensAreOneShot(s: State, steps: seq<Step>, sweeping: bool, verify: Verifier, a: nat,
      b: nat)
    requires OneShot(s) && Runs(s, steps, sweeping, verify) && FreshRun(s, steps, sweeping, verify)
    ensures var t := After(s, steps, sweeping, verify);
            && OneShot(t)
            && (a in t.requests && t.requests[a].Granted? ==>
                  var r := t.requests[a];
                  && r.id in t.issued && r.consumedAt <= t.issued[r.id].expiry
                  && r.token == Token(t.issued[r.id].challenge.name, t.issued[r.id].teamId)
                  && (b in t.requests && t.requests[b].Granted? && t.requests[b].id == r.id ==> a == b))
    decreases |steps|
  {
    if steps != [] {
      StepKeepsOneShot(s, steps[0], sweeping, verify);
      TokensAreOneShot(Apply(s, steps[0], sweeping, verify), steps[1..], sweeping, verify, a, b);
    }
  }

  /** With nothing issued and nothing requested every run begins, swept or not. */
  lemma InitialIsOneShot(clock: int)
    ensures OneShot(Initial) && SweptVersion(Initial, Initial, clock)
  {
  }

  // Sweeping is invisible.

  /** When the clock was read by a step, and the latest reading so far. */
  function ClockAfter(step: Step, clock: int): int {
    match step
    case Issue(_, _, _, _, storedAt) => storedAt
    case Sweep(now) => now
    case Begin(_, _, _, _, now) => now
    case _ => clock
  }

  predicate OnTime(step: Step, clock: int) {
    match step
    case Issue(_, _, _, now, _) => clock <= now
    case Sweep(now) => clock <= now
    case Begin(_, _, _, _, now) => clock <= now
    case _ => true
  }

  predicate ClockNeverGoesBack(steps: seq<Step>, clock: int) {
    steps != [] ==> OnTime(steps[0], clock) && ClockNeverGoesBack(steps[1..], ClockAfter(steps[0], clock))
  }

  /** The swept table is the unswept one without some challenges that have already expired. */
  ghost predicate SweptVersion(swept: State, full: State, clock: int) {
    && swept.requests == full.requests
    && swept.challenges.Keys <= full.challenges.Keys
    && (forall id | id in swept.challenges :: swept.challenges[id] == full.challenges[id])
    && (forall id | id in full.challenges && id !in swept.challenges :: full.challenges[id].expiry < clock)
  }

  lemma StepKeepsSweptVersion(swept: State, full: State, step: Step, clock: int, verify: Verifier)
    requires SweptVersion(swept, full, clock) && OnTime(step, clock) && Enabled(swept, step)
    ensures Enabled(full, step)
    ensures SweptVersion(Apply(swept, step, true, verify), Apply(full, step, false, verify), ClockAfter(step, clock))
  {
    hide CheckProof, ValidText, Decoded;
  }

  /** Evictions, wherever they fall, never change the answer to a token request. */
  lemma {:induction false} SweepingIsInvisible(swept: State, full: State, steps: seq<Step>, clock: int,
      verify: Verifier)
    requires SweptVersion(swept, full, clock) && ClockNeverGoesBack(steps, clock) && Runs(swept, steps, true, verify)
    ensures Runs(full, steps, false, verify)
    ensures After(swept, steps, true, verify).requests == After(full, steps, false, verify).requests
    decreases |steps|
  {
    if steps != [] {
      StepKeepsSweptVersion(swept, full, steps[0], clock, verify);
      SweepingIsInvisible(Apply(swept, steps[0], true, verify), Apply(full, steps[0], false, verify), steps[1..],
                          ClockAfter(steps[0], clock), verify);
    }
  }

  // A valid proof in time is granted.

  /** No other step touches this challenge: it is neither asked for nor issued again, nor swept after its expiry. */
  predicate SparesChallenge(step: Step, id: string, expiry: int) {
    match step
    case Issue(other, _, _, now, _) => other != id && now <= expiry
    case Sweep(now) => now <= expiry
    case Begin(_, other, _, _, _) => other != id
    case _ => true
  }

  /** The key lookup and the signing of this request are not reported. */
  predicate SparesRequest(step: Step, req: nat) {
    match step
    case KeyResolved(other, _) => other != req
    case Signed(other, _) => other != req
    case _ => true
  }

  lemma {:induction false} ChallengeStays(
    s: State, steps: seq<Step>, sweeping: bool, verify: Verifier, id: string, stored: StoredChallenge)
    requires Runs(s, steps, sweeping, verify) && id in s.challenges && s.challenges[id] == stored
    requires forall step | step in steps :: SparesChallenge(step, id, stored.expiry)
    ensures var t := After(s, steps, sweeping, verify); id in t.challenges && t.challenges[id] == stored
    decreases |steps|
  {
    hide CheckProof, Admit;
    if steps != [] {
      assert steps[0] in steps && forall step | step in steps[1..] :: step in steps;
      ChallengeStays(Apply(s, steps[0], sweeping, verify), steps[1..], sweeping, verify, id, stored);
    }
  }

  lemma {:induction false} RequestStays(
    s: State, steps: seq<Step>, sweeping: bool, verify: Verifier, req: nat, r: Request)
    requires Runs(s, steps, sweeping, verify) && req in s.requests && s.requests[req] == r
    requires forall step | step in steps :: SparesRequest(step, req)
    ensures var t := After(s, steps, sweeping, verify); req in t.requests && t.requests[req] == r
    decreases |steps|
  {
    hide CheckProof, Admit;
    if steps != [] {
      assert steps[0] in steps && forall step | step in steps[1..] :: step in steps;
      RequestStays(Apply(s, steps[0], sweeping, verify), steps[1..], sweeping, verify, req, r);
    }
  }

  /** A request goes on to the key lookup if and only if the challenge's device makes it in time, in valid text. */
  lemma BegunIff(
    s: State, step: Step, stored: StoredChallenge, storedAt: int, sweeping: bool, verify: Verifier)
    requires step.Begin? && Enabled(s, step) && step.id in s.challenges && s.challenges[step.id] == stored
    requires stored.expiry == storedAt + 30_000
    ensures var r := Apply(s, step, sweeping, verify).requests[step.req];
            && (r.AwaitingKey? <==>
                  && step.now <= storedAt + 30_000 && step.deviceId == stored.challenge.name
                  && ValidText(step.proof.signature) && ValidText(step.proof.publicKey))
            && (r.AwaitingKey? ==>
                  r.id == step.id && r.admission.stored == stored && r.deviceId == step.deviceId)
            && (!r.AwaitingKey? ==> r.Refused?)
  {
    hide Decoded, ValidText;
  }

  /** Then it goes on to signing if and only if the proof names the registered key and the signature is valid. */
  lemma ProvedIff(
    s: State, begin: Step, stored: StoredChallenge, t: State, registered: Option<string>, sweeping: bool,
    verify: Verifier)
    requires begin.Begin? && Enabled(s, begin) && begin.id in s.challenges && s.challenges[begin.id] == stored
    requires begin.req in t.requests
             && t.requests[begin.req] == Apply(s, begin, sweeping, verify).requests[begin.req]
             && t.requests[begin.req].AwaitingKey?
    ensures var r := Apply(t, KeyResolved(begin.req, registered), sweeping, verify).requests[begin.req];
            && (r.AwaitingSignature? <==>
                  && registered == Some(begin.proof.publicKey)
                  && verify(Decoded(begin.proof.signature), stored.challenge, Decoded(begin.proof.publicKey)) == Valid)
            && (r.AwaitingSignature? ==>
                  r.id == begin.id && r.stored == stored && r.deviceId == begin.deviceId)
  {
    hide Decoded, ValidText, CheckProof;
    AcceptedProofNamesRegisteredKey(s.challenges, begin.id, begin.deviceId, begin.proof, begin.now, registered, verify);
  }

  ghost predicate LeadsTo(s: State, steps: seq<Step>, t: State, sweeping: bool, verify: Verifier) {
    Runs(s, steps, sweeping, verify) && After(s, steps, sweeping, verify) == t
  }

  ghost predicate StepsTo(s: State, step: Step, t: State, sweeping: bool, verify: Verifier) {
    Enabled(s, step) && Apply(s, step, sweeping, verify) == t
  }

  /** A challenge is issued in s; after other steps its device asks for it in time, with a proof that is valid. */
  ghost predicate AsksInTime(
    s: State, issue: Step, before: seq<Step>, asked: State, begin: Step, begun: State, sweeping: bool,
    verify: Verifier)
  {
    && issue.Issue? && Enabled(s, issue) && LeadsTo(Apply(s, issue, sweeping, verify), before, asked, sweeping, verify)
    && (forall step | step in before :: SparesChallenge(step, issue.id, issue.storedAt + 30_000))
    && begin.Begin? && begin.id == issue.id && StepsTo(asked, begin, begun, sweeping, verify)
    && begin.deviceId == issue.challenge.name && begin.now <= issue.storedAt + 30_000
    && ValidText(begin.proof.signature) && ValidText(begin.proof.publicKey)
    && verify(Decoded(begin.proof.signature), issue.challenge, Decoded(begin.proof.publicKey)) == Valid
  }

  lemma AskingInTimeIsAdmitted(
    s: State, issue: Step, before: seq<Step>, asked: State, begin: Step, begun: State, sweeping: bool,
    verify: Verifier)
    requires AsksInTime(s, issue, before, asked, begin, begun, sweeping, verify)
    ensures var stored := StoredChallenge(issue.challenge, issue.teamId, issue.storedAt + 30_000);
            && begin.id in asked.challenges && asked.challenges[begin.id] == stored
            && begin.req in begun.requests && begun.requests[begin.req].AwaitingKey?
            && begun.requests[begin.req].id == issue.id
  {
    hide Decoded, ValidText, CheckProof, Admit, Runs, After;
    var stored := StoredChallenge(issue.challenge, issue.teamId, issue.storedAt + 30_000);
    ChallengeStays(Apply(s, issue, sweeping, verify), before, sweeping, verify, issue.id, stored);
    BegunIff(asked, begin, stored, issue.storedAt, sweeping, verify);
  }

  /** Whatever comes between, with the registered key the request then waits for its token to be signed. */
  lemma ValidProofAwaitsToken(
    s: State, issue: Step, before: seq<Step>, asked: State, begin: Step, begun: State, during: seq<Step>,
    found: State, sweeping: bool, verify: Verifier)
    requires AsksInTime(s, issue, before, asked, begin, begun, sweeping, verify)
    requires LeadsTo(begun, during, found, sweeping, verify)
    requires forall step | step in during :: SparesRequest(step, begin.req)
    ensures Enabled(found, KeyResolved(begin.req, Some(begin.proof.publicKey)))
    ensures forall t | StepsTo(found, KeyResolved(begin.req, Some(begin.proof.publicKey)), t, sweeping, verify) ::
              && begin.req in t.requests && t.requests[begin.req].AwaitingSignature?
              && t.requests[begin.req].id == issue.id && t.requests[begin.req].deviceId == begin.deviceId
              && t.requests[begin.req].stored.teamId == issue.teamId
  {
    hide Decoded, ValidText, CheckProof, Admit, Runs, After, SparesChallenge;
    AskingInTimeIsAdmitted(s, issue, before, asked, begin, begun, sweeping, verify);
    var stored := StoredChallenge(issue.challenge, issue.teamId, issue.storedAt + 30_000);
    RequestStays(begun, during, sweeping, verify, begin.req, begun.requests[begin.req]);
    ProvedIff(asked, begin, stored, found, Some(begin.proof.publicKey), sweeping, verify);
  }

  /**
   * A challenge issued to a device and stored at `storedAt`, whatever other requests, issues and sweeps come
   * between the steps: a request for it in time by that device, with the registered key and a signature valid
   * under it, ends in a token for that device and team once the token is signed.
   */
  lemma ValidProofInTimeIsGranted(
    s: State, issue: Step, before: seq<Step>, asked: State, begin: Step, begun: State, during: seq<Step>,
    found: State, resolved: State, waiting: seq<Step>, last: State, sweeping: bool, verify: Verifier)
    requires AsksInTime(s, issue, before, asked, begin, begun, sweeping, verify)
    requires LeadsTo(begun, during, found, sweeping, verify)
    requires StepsTo(found, KeyResolved(begin.req, Some(begin.proof.publicKey)), resolved, sweeping, verify)
    requires LeadsTo(resolved, waiting, last, sweeping, verify)
    requires forall step | step in during + waiting :: SparesRequest(step, begin.req)
    ensures Enabled(last, Signed(begin.req, true))
    ensures forall signed | StepsTo(last, Signed(begin.req, true), signed, sweeping, verify) ::
              && begin.req in signed.requests && signed.requests[begin.req].Granted?
              && signed.requests[begin.req].id == issue.id
              && signed.requests[begin.req].token == Token(begin.deviceId, issue.teamId)
  {
    hide Decoded, ValidText, CheckProof, Admit, Runs, After, SparesChallenge;
    assert forall step | step in during :: step in during + waiting;
    assert forall step | step in waiting :: step in during + waiting;
    ValidProofAwaitsToken(s, issue, before, asked, begin, begun, during, found, sweeping, verify);
    RequestStays(resolved, waiting, sweeping, verify, begin.req, resolved.requests[begin.req]);
  }
}
