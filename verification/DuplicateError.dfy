/**
 * Recognising a duplicate log-entry id in a driver error: a worklist search over the objects an error
 * links to, which may form cycles.
 */
module DuplicateError {
  import opened Wrappers

  /** A JS value met during the search: an object on the heap, or anything else. */
  datatype Value = Object(ref: nat) | NotAnObject

  datatype ErrorObject = ErrorObject(
    isUniqueConstraintViolationException: bool,
    name: Option<string>,
    code: Option<string>,
    sqlState: Option<string>,
    constraintName: Option<string>,
    message: Option<string>,
    detail: Option<string>,
    cause: Value,
    driverException: Value,
    originalError: Value
  )

  type Heap = seq<ErrorObject>

  const UNIQUE_VIOLATION := "23505"
  const PRIMARY_KEY := "log_entry_sync_pkey"

  predicate IsUniqueConstraintViolation(e: ErrorObject) {
    || e.isUniqueConstraintViolationException
    || e.name == Some("UniqueConstraintViolationException")
    || e.code == Some(UNIQUE_VIOLATION)
    || e.sqlState == Some(UNIQUE_VIOLATION)
  }

  predicate IsPrimaryKeyViolation(e: ErrorObject) {
    || e.constraintName == Some(PRIMARY_KEY)
    || (e.message.Some? && Includes(e.message.value, PRIMARY_KEY))
    || (e.detail.Some? && Includes(e.detail.value, "Key (id)="))
  }

  predicate IsDuplicateId(e: ErrorObject) {
    IsUniqueConstraintViolation(e) && IsPrimaryKeyViolation(e)
  }

  function Links(e: ErrorObject): seq<Value> { [e.cause, e.driverException, e.originalError] }

  /** One object is the cause, driver exception or original error of another. */
  ghost predicate LinksTo(e: ErrorObject, n: nat) {
    e.cause == Object(n) || e.driverException == Object(n) || e.originalError == Object(n)
  }

  /** A unique violation, of the table's primary key: by class, name or SQL state, and by constraint or wording. */
  ghost predicate ReportsDuplicateId(e: ErrorObject) {
    && (e.isUniqueConstraintViolationException || e.name == Some("UniqueConstraintViolationException")
        || Some("23505") in {e.code, e.sqlState})
    && (|| e.constraintName == Some("log_entry_sync_pkey")
        || (exists i, j | 0 <= i <= j <= |e.message.GetOr("")| ::
              e.message.GetOr("")[i..j] == "log_entry_sync_pkey")
        || (exists i, j | 0 <= i <= j <= |e.detail.GetOr("")| :: e.detail.GetOr("")[i..j] == "Key (id)="))
  }

  lemma IncludesIsSlice(text: string, part: string)
    ensures Includes(text, part) <==> exists i, j | 0 <= i <= j <= |text| :: text[i..j] == part
  {
    if Includes(text, part) {
      var i :| 0 <= i <= |text| && part <= text[i..];
      assert text[i..i + |part|] == text[i..][..|part|] == part;
    }
    if i, j :| 0 <= i <= j <= |text| && text[i..j] == part {
      assert text[i..][..j - i] == text[i..j];
    }
  }

  lemma DuplicateIdIsReported(e: ErrorObject)
    ensures IsDuplicateId(e) <==> ReportsDuplicateId(e)
  {
    hide Includes;
    IncludesIsSlice(e.message.GetOr(""), "log_entry_sync_pkey");
    IncludesIsSlice(e.detail.GetOr(""), "Key (id)=");
    var none := "";
    assert |none| < |"log_entry_sync_pkey"| && |none| < |"Key (id)="|;
  }

  predicate Valid(h: Heap, v: Value) { v.Object? ==> v.ref < |h| }

  predicate Closed(h: Heap) { forall i | 0 <= i < |h| :: forall v | v in Links(h[i]) :: Valid(h, v) }

  /** `path` follows links from `from` to the object `to`. */
  ghost predicate Path(h: Heap, from: Value, to: nat, path: seq<nat>) {
    && path != [] && from == Object(path[0]) && path[|path| - 1] == to
    && (forall i | 0 <= i < |path| :: path[i] < |h|)
    && (forall i | 0 <= i < |path| - 1 :: LinksTo(h[path[i]], path[i + 1]))
  }

  ghost predicate Reachable(h: Heap, from: Value, to: nat) { exists path :: Path(h, from, to, path) }

  lemma ReachableStep(h: Heap, from: Value, via: nat, next: nat)
    requires Closed(h) && Reachable(h, from, via) && via < |h| && Object(next) in Links(h[via])
    ensures Reachable(h, from, next)
  {
    var path :| Path(h, from, via, path);
    assert Valid(h, Object(next));
    assert Path(h, from, next, path + [next]);
  }

  /** A set that holds the start and follows every link holds everything reachable. */
  lemma {:induction false} ClosedSetHoldsPath(h: Heap, from: Value, to: nat, path: seq<nat>, s: set<nat>)
    requires Path(h, from, to, path) && path[0] in s
    requires forall n, m | n in s && n < |h| && Object(m) in Links(h[n]) :: m in s
    ensures to in s
    decreases |path|
  {
    if |path| > 1 {
      ClosedSetHoldsPath(h, Object(path[1]), to, path[1..], s);
    }
  }

  /**
   * The search ends on every finite graph, cyclic or not, and answers whether some reachable object is
   * itself both a unique violation and a primary-key violation.
   */
  method IsDuplicateLogEntryIdError(h: Heap, error: Value) returns (found: bool)
    requires Closed(h) && Valid(h, error)
    ensures found <==> exists n | 0 <= n < |h| :: Reachable(h, error, n) && ReportsDuplicateId(h[n])
  {
    hide Reachable, IsDuplicateId, ReportsDuplicateId;
    var pending: seq<Value> := [error];
    var visited: set<nat> := {};
    StartIsReachable(h, error);
    while |pending| > 0
      invariant forall v | v in pending :: Valid(h, v) && (v.Object? ==> Reachable(h, error, v.ref))
      invariant forall n | n in visited :: n < |h| && Reachable(h, error, n) && !ReportsDuplicateId(h[n])
      invariant error.Object? ==> error in pending || error.ref in visited
      invariant forall n, m | n in visited && n < |h| && Object(m) in Links(h[n]) ::
                  Object(m) in pending || m in visited
      decreases (set n | 0 <= n < |h| && n !in visited), |pending|
    {
      var current := pending[|pending| - 1];
      ghost var before := pending;
      pending := pending[..|pending| - 1];
      assert before == pending + [current];
      assert current in before;
      if current == NotAnObject || current.ref in visited {
        continue;
      }
      var n := current.ref;
      ghost var unseen := set k | 0 <= k < |h| && k !in visited;
      assert n in unseen;
      visited := visited + {n};
      assert (set k | 0 <= k < |h| && k !in visited) == unseen - {n};
      DuplicateIdIsReported(h[n]);
      if IsDuplicateId(h[n]) {
        return true;
      }
      forall m | Object(m) in Links(h[n])
        ensures Reachable(h, error, m)
      {
        ReachableStep(h, error, n, m);
      }
      pending := pending + Links(h[n]);
    }
    forall n | 0 <= n < |h| && Reachable(h, error, n)
      ensures n in visited
    {
      SearchIsComplete(h, error, n, visited);
    }
    return false;
  }

  lemma StartIsReachable(h: Heap, error: Value)
    requires Valid(h, error)
    ensures error.Object? ==> Reachable(h, error, error.ref)
  {
    if error.Object? {
      assert Path(h, error, error.ref, [error.ref]);
    }
  }

  lemma SearchIsComplete(h: Heap, error: Value, n: nat, visited: set<nat>)
    requires Reachable(h, error, n) && (error.Object? ==> error.ref in visited)
    requires forall k, m | k in visited && k < |h| && Object(m) in Links(h[k]) :: m in visited
    ensures n in visited
  {
    var path :| Path(h, error, n, path);
    ClosedSetHoldsPath(h, error, n, path, visited);
  }
}
