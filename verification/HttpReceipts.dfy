/** The idempotency receipts of HTTP commands: what a stored result answers to the next request under
    the same identity, and how it ages. */
module HttpReceipts {
  datatype Stored<D, R> = Complete(digest: D, response: R, committedAt: int) | Tombstone(digest: D)

  /** A response is kept for a day, in milliseconds. */
  const DAY: int := 86_400_000

  function Expire<D, R>(stored: Stored<D, R>, now: int): Stored<D, R> {
    if stored.Complete? && stored.committedAt + DAY <= now then Tombstone(stored.digest) else stored
  }

  /** The expired response of one identity is redacted before it is read. */
  function Redacted<I, D, R>(http: map<I, Stored<D, R>>, identity: I, now: int): map<I, Stored<D, R>> {
    if identity in http then http[identity := Expire(http[identity], now)] else http
  }

  /** All expired responses are redacted. */
  function Swept<I, D, R>(http: map<I, Stored<D, R>>, now: int): map<I, Stored<D, R>> {
    map identity | identity in http :: Expire(http[identity], now)
  }

  datatype Verdict<R> = Unknown | Conflict | Gone | Replay(response: R)

  function Judge<I, D(==), R>(http: map<I, Stored<D, R>>, identity: I, digest: D): Verdict<R> {
    if identity !in http then Unknown
    else if http[identity].digest != digest then Conflict
    else if http[identity].Tombstone? then Gone
    else Replay(http[identity].response)
  }

  /** Receipts only age: the same identities for the same requests, some responses redacted. */
  ghost predicate OnlyAged<I, D, R>(http: map<I, Stored<D, R>>, next: map<I, Stored<D, R>>) {
    && http.Keys == next.Keys
    && (forall identity :: identity in http ==>
          next[identity] == http[identity] || next[identity] == Tombstone(http[identity].digest))
  }

  /** The receipt of a request committed at `at`, or its tombstone once the clock could have passed its day. */
  ghost predicate Remembered<I, D, R>(
      http: map<I, Stored<D, R>>, identity: I, digest: D, response: R, at: int, now: int)
  {
    identity in http
    && (http[identity] == Complete(digest, response, at) || (http[identity] == Tombstone(digest) && at + DAY <= now))
  }

  /** What a remembered receipt answers at time `now`. */
  lemma RememberedAnswers<I, D, R>(
      http: map<I, Stored<D, R>>, identity: I, digest: D, response: R, at: int, now: int, asked: D)
    requires Remembered(http, identity, digest, response, at, now)
    ensures Judge(Redacted(http, identity, now), identity, asked)
         == if asked != digest then Conflict else if at + DAY <= now then Gone else Replay(response)
  {}
}
