/** Reading a secret with bounded retries: which failures are retried, and what counts as absence. */
module AwsSecrets {
  import opened Wrappers

  const GET_SECRET_MAX_ATTEMPTS := 3

  datatype AwsError = AwsError(
    name: Option<string>,
    code: Option<string>,
    message: Option<string>,
    httpStatusCode: Option<int>,
    retryable: bool
  )

  /** How the backend answers one request. */
  datatype Answer = Secret(value: string) | NoValue | Error(error: AwsError)

  function Lower(c: char): char {
    if 'A' <= c <= 'Z' then c - 'A' + 'a' else c
  }

  function ToLower(s: string): string { seq(|s|, i requires 0 <= i < |s| => Lower(s[i])) }

  predicate IsSecretNotFound(e: AwsError) {
    || e.name == Some("ResourceNotFoundException")
    || e.code == Some("ResourceNotFoundException")
    || e.httpStatusCode == Some(404)
  }

  const RETRYABLE_NAMES := [
    "InternalServiceError", "InternalServiceErrorException", "ServiceUnavailableException", "ThrottlingException",
    "TooManyRequestsException", "TimeoutError", "TimeoutException", "RequestTimeout", "NetworkingError", "NetworkError"
  ]

  const RETRYABLE_PHRASES := ["timeout", "network", "socket hang up", "econnreset"]

  predicate IsRetryable(e: AwsError) {
    var errorName := if e.name.Some? then e.name else e.code;
    || (e.httpStatusCode.Some? &&
        (e.httpStatusCode.value == 408 || e.httpStatusCode.value == 429 || e.httpStatusCode.value >= 500))
    || e.retryable
    || (errorName.Some? && errorName.value in RETRYABLE_NAMES)
    || (e.message.Some? &&
        exists i | 0 <= i < |RETRYABLE_PHRASES| :: Includes(ToLower(e.message.value), RETRYABLE_PHRASES[i]))
  }

  /** The error an answer raises: its own, or the complaint about a secret without a value. */
  function Raised(secretName: string, a: Answer): AwsError
    requires !a.Secret?
  {
    match a
    case Error(e) => e
    case NoValue =>
      AwsError(Some("Error"), None, Some("Secret " + secretName + " was found but did not include a secret value"),
               None, false)
  }

  /** A failure that is tried again. */
  predicate Transient(secretName: string, a: Answer) {
    !a.Secret? && !IsSecretNotFound(Raised(secretName, a)) && IsRetryable(Raised(secretName, a))
  }

  /** The number of the answer that decides: the first that is not transient, or the last allowed. */
  ghost predicate Decides(secretName: string, answers: seq<Answer>, k: nat) {
    && k < GET_SECRET_MAX_ATTEMPTS && k < |answers|
    && (forall i | 0 <= i < k :: Transient(secretName, answers[i]))
    && (k < GET_SECRET_MAX_ATTEMPTS - 1 ==> !Transient(secretName, answers[k]))
  }

  /** What the caller is told once an answer decides. */
  function Concluded(secretName: string, a: Answer): Result<Option<string>, AwsError> {
    match a
    case Secret(value) => Success(Some(value))
    case _ => if IsSecretNotFound(Raised(secretName, a)) then Success(None) else Failure(Raised(secretName, a))
  }

  /** The secret read from a backend that would answer successive requests like this. */
  ghost predicate ReadsAs(secretName: string, answers: seq<Answer>, secret: Result<Option<string>, AwsError>) {
    exists k: nat :: Decides(secretName, answers, k) && secret == Concluded(secretName, answers[k])
  }

  /** Absence is only ever concluded from an explicit not-found answer, never from a failure. */
  method Get(secretName: string, answers: seq<Answer>) returns (secret: Result<Option<string>, AwsError>)
    requires |answers| >= GET_SECRET_MAX_ATTEMPTS
    ensures ReadsAs(secretName, answers, secret)
  {
    hide IsRetryable, IsSecretNotFound, Raised;
    for attempt := 1 to GET_SECRET_MAX_ATTEMPTS
      invariant forall i | 0 <= i < attempt - 1 :: Transient(secretName, answers[i])
    {
      var answer := answers[attempt - 1];
      assert !Transient(secretName, answer) ==> Decides(secretName, answers, attempt - 1);
      if answer.Secret? {
        return Success(Some(answer.value));
      }
      var error := Raised(secretName, answer);
      if IsSecretNotFound(error) {
        return Success(None);
      }
      if !IsRetryable(error) {
        return Failure(error);
      }
    }
    var last := answers[GET_SECRET_MAX_ATTEMPTS - 1];
    assert Decides(secretName, answers, GET_SECRET_MAX_ATTEMPTS - 1);
    if last.Secret? {
      return Success(Some(last.value));
    }
    var error := Raised(secretName, last);
    if IsSecretNotFound(error) {
      return Success(None);
    }
    return Failure(error);
  }

  /** A backend's answers determine what is read. */
  lemma ReadingIsUnique(
    secretName: string, answers: seq<Answer>, a: Result<Option<string>, AwsError>, b: Result<Option<string>, AwsError>)
    requires ReadsAs(secretName, answers, a) && ReadsAs(secretName, answers, b)
    ensures a == b
  {
    hide Transient, Concluded;
    var j: nat :| Decides(secretName, answers, j) && a == Concluded(secretName, answers[j]);
    var k: nat :| Decides(secretName, answers, k) && b == Concluded(secretName, answers[k]);
    assert !(j < k) && !(k < j);
  }

  /** A secret is read as absent only if some answer said so outright, and every failure before it was transient. */
  lemma AbsenceIsExplicit(secretName: string, answers: seq<Answer>)
    requires ReadsAs(secretName, answers, Success(None))
    ensures exists k | 0 <= k < |answers| && k < GET_SECRET_MAX_ATTEMPTS ::
              answers[k].Error? && IsSecretNotFound(answers[k].error)
              && forall i | 0 <= i < k :: Transient(secretName, answers[i])
  {
    var k: nat :| Decides(secretName, answers, k) && Success(None) == Concluded(secretName, answers[k]);
  }

  // Which failures are tried again, which mean absence and which are final, on the error's own fields.

  lemma LowerIsCapitalized(c: char, lower: char)
    requires 'a' <= lower <= 'z' || lower == ' '
    ensures Lower(c) == lower <==> IsOrCapitalizes(c, lower)
  {
    CapitalLetters();
    if 'A' <= c <= 'Z' {
      var i := c as int - 'A' as int;
      assert c == UPPER_CASE[i] && Lower(c) == LOWER_CASE[i];
    }
  }

  lemma PhraseBegins(message: string, phrase: string)
    requires forall j | 0 <= j < |phrase| :: 'a' <= phrase[j] <= 'z' || phrase[j] == ' '
    ensures phrase <= ToLower(message) <==> BeginsInAnyCase(message, phrase)
  {
    hide IsOrCapitalizes, Lower;
    if |phrase| <= |message| {
      forall j | 0 <= j < |phrase|
        ensures ToLower(message)[j] == phrase[j] <==> IsOrCapitalizes(message[j], phrase[j])
      {
        LowerIsCapitalized(message[j], phrase[j]);
      }
    }
  }

  lemma PhraseInAnyCase(message: string, phrase: string)
    requires forall j | 0 <= j < |phrase| :: 'a' <= phrase[j] <= 'z' || phrase[j] == ' '
    ensures Includes(ToLower(message), phrase) <==> IncludesInAnyCase(message, phrase)
  {
    hide IsOrCapitalizes, Lower, BeginsInAnyCase;
    forall i | 0 <= i <= |message|
      ensures phrase <= ToLower(message)[i..] <==> BeginsInAnyCase(message[i..], phrase)
    {
      assert ToLower(message)[i..] == ToLower(message[i..]);
      PhraseBegins(message[i..], phrase);
    }
  }

  /** Whether a failure is worth another try. */
  ghost predicate LooksTemporary(e: AwsError) {
    || (exists status :: e.httpStatusCode == Some(status) && (status == 408 || status == 429 || 500 <= status))
    || e.retryable
    || (exists name | name in {"InternalServiceError", "InternalServiceErrorException", "ServiceUnavailableException",
                               "ThrottlingException", "TooManyRequestsException", "TimeoutError", "TimeoutException",
                               "RequestTimeout", "NetworkingError", "NetworkError"} ::
          e.name == Some(name) || (e.name == None && e.code == Some(name)))
    || (exists phrase | phrase in {"timeout", "network", "socket hang up", "econnreset"} ::
          e.message.Some? && IncludesInAnyCase(e.message.value, phrase))
  }

  lemma PhrasesAreLowerCase()
    ensures forall i, j | 0 <= i < |RETRYABLE_PHRASES| && 0 <= j < |RETRYABLE_PHRASES[i]| ::
              'a' <= RETRYABLE_PHRASES[i][j] <= 'z' || RETRYABLE_PHRASES[i][j] == ' '
  {
  }

  lemma MessageLooksTemporary(message: string)
    ensures (exists i | 0 <= i < |RETRYABLE_PHRASES| :: Includes(ToLower(message), RETRYABLE_PHRASES[i]))
            <==> exists phrase | phrase in {"timeout", "network", "socket hang up", "econnreset"} ::
                   IncludesInAnyCase(message, phrase)
  {
    hide Includes, IncludesInAnyCase, ToLower;
    PhrasesAreLowerCase();
    forall i | 0 <= i < |RETRYABLE_PHRASES|
      ensures Includes(ToLower(message), RETRYABLE_PHRASES[i]) <==> IncludesInAnyCase(message, RETRYABLE_PHRASES[i])
    {
      PhraseInAnyCase(message, RETRYABLE_PHRASES[i]);
    }
    assert RETRYABLE_PHRASES[0] == "timeout" && RETRYABLE_PHRASES[1] == "network";
    assert RETRYABLE_PHRASES[2] == "socket hang up" && RETRYABLE_PHRASES[3] == "econnreset";
  }

  lemma RetryableIsTemporary(e: AwsError)
    ensures IsRetryable(e) <==> LooksTemporary(e)
  {
    hide Includes, IncludesInAnyCase, ToLower;
    if e.message.Some? { MessageLooksTemporary(e.message.value); }
  }

  /** After a first failure a backend that would now answer `v` is asked again, is not, or gives up, exactly so. */
  lemma FirstFailureDecides(secretName: string, e: AwsError, v: string, last: Answer)
    ensures var answers := [Error(e), Secret(v), last];
            var absent := "ResourceNotFoundException" in {e.name.GetOr(""), e.code.GetOr("")}
                          || e.httpStatusCode == Some(404);
            && (ReadsAs(secretName, answers, Success(None)) <==> absent)
            && (ReadsAs(secretName, answers, Success(Some(v))) <==> !absent && LooksTemporary(e))
            && (ReadsAs(secretName, answers, Failure(e)) <==> !absent && !LooksTemporary(e))
  {
    hide IsRetryable, LooksTemporary;
    RetryableIsTemporary(e);
    var answers := [Error(e), Secret(v), last];
    if Transient(secretName, answers[0]) {
      assert Decides(secretName, answers, 1);
    } else {
      assert Decides(secretName, answers, 0);
    }
  }

  /** The third request is the last: its answer counts even if it, too, looks temporary. */
  lemma ThirdAnswerIsFinal(secretName: string, e1: AwsError, e2: AwsError, e3: AwsError, v: string)
    requires forall e | e in {e1, e2, e3} ::
               LooksTemporary(e) && "ResourceNotFoundException" !in {e.name.GetOr(""), e.code.GetOr("")}
               && e.httpStatusCode != Some(404)
    ensures ReadsAs(secretName, [Error(e1), Error(e2), Error(e3), Secret(v)], Failure(e3))
    ensures ReadsAs(secretName, [Error(e1), Error(e2), Secret(v)], Success(Some(v)))
  {
    hide IsRetryable, LooksTemporary;
    RetryableIsTemporary(e1);
    RetryableIsTemporary(e2);
    assert Decides(secretName, [Error(e1), Error(e2), Error(e3), Secret(v)], 2);
    assert Decides(secretName, [Error(e1), Error(e2), Secret(v)], 2);
  }

  /** A secret that is there without a value is never taken for an absent one. */
  lemma MissingValueIsAnError(secretName: string, answers: seq<Answer>, secret: Result<Option<string>, AwsError>)
    requires |answers| >= 3 && answers[0] == answers[1] == answers[2] == NoValue && ReadsAs(secretName, answers, secret)
    ensures secret.Failure? && secret.error.message.Some?
    ensures exists i, j | 0 <= i <= j <= |secret.error.message.value| ::
              secret.error.message.value[i..j] == secretName
  {
    hide IsRetryable;
    var message := "Secret " + secretName + " was found but did not include a secret value";
    assert secret.error.message == Some(message);
    assert message[7..7 + |secretName|] == secretName;
  }
}
