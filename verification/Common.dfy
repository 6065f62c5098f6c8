/** Types shared by every module: optional values, result codes, instants and the poll record of the service layer. */
module Common {

  datatype Option<+T> = None | Some(value: T)

  type PollId = string
  type UserId = string

  /** Instants are whole nanoseconds since the epoch. */
  const NANOS := 1_000_000_000

  /** Whole seconds since the epoch, rounded down (Dafny's division is a floor for a positive divisor). */
  function Unix(t: int): int {
    t / NANOS
  }

  /** The poll record handed to a store by the service layer. */
  datatype Poll = Poll(
    id: PollId,
    question: string,
    options: seq<string>,
    votes: map<string, int>,
    createdBy: UserId,
    updatedBy: UserId,
    createdAt: int,
    expiresAt: int,
    isClosed: bool,
    isPublic: bool)

  /** Outcome of a store operation: `Noop` is a repeated idempotency key, which callers see as success. */
  datatype Code = OK | NotFound | Forbidden | Conflict | Invalid | Noop

  /** Seconds plus the id's CRC-32 modulo one million, in millionths; `salt` is that remainder. */
  function CreatedScore(createdAt: int, salt: nat): int {
    Unix(createdAt) * 1_000_000 + salt
  }

  /** The whole second an instant lies in. */
  lemma UnixIsFloor(t: int)
    ensures Unix(t) * 1_000_000_000 <= t < (Unix(t) + 1) * 1_000_000_000
  {
  }

  /** A later second, or the same second and a remainder no smaller. */
  predicate NoOlder(t: int, m: nat, u: int, n: nat) {
    Unix(t) > Unix(u) || (Unix(t) == Unix(u) && m >= n)
  }

  /** Scores order polls by second of creation, then by remainder, and tie only where both agree. */
  lemma ScoreOrders(t: int, m: nat, u: int, n: nat)
    requires m < 1_000_000 && n < 1_000_000
    ensures CreatedScore(t, m) >= CreatedScore(u, n) <==> NoOlder(t, m, u, n)
    ensures CreatedScore(t, m) == CreatedScore(u, n) <==> Unix(t) == Unix(u) && m == n
  {
  }

  lemma CardinalityOfSubset<T>(a: set<T>, b: set<T>)
    requires a <= b
    ensures |a| <= |b|
    ensures |a| == |b| ==> a == b
  {
    assert b == a + (b - a);
    if |a| == |b| {
      assert |b - a| == 0;
    }
  }
}
