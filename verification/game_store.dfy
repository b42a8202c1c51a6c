/** The shared game store: `AppDBState.guess_pairs` behind an `RwLock`.
    The lock is abstracted to atomic steps; the only trace of it that the
    model keeps is whether it is poisoned. */
module GameStore {
  import opened Results
  import opened Errors

  /** Rust's `u32`. */
  type U32 = n: nat | n < 0x1_0000_0000

  /** Secrets are drawn from the half-open range [0, SecretBound). */
  const SecretBound: nat := 20

  /** A value of `rng.gen_range(0..20)`. */
  type Secret = n: U32 | n < SecretBound

  /** The game table and the poison state of the lock guarding it. */
  datatype Store = Store(games: map<string, U32>, poisoned: bool)

  /** The error `RwLock::read` and `RwLock::write` return once the lock is
      poisoned. */
  datatype PoisonError = PoisonError

  /** The store the service starts with: no games, healthy lock. */
  const Empty: Store := Store(map[], false)

  /** Every stored secret lies in the range the generator draws from. */
  ghost predicate SecretsInRange(s: Store) {
    forall id :: id in s.games ==> s.games[id] < SecretBound
  }

  /** `RwLock::read`: a snapshot of the table, or an error when poisoned. */
  function Read(s: Store): (r: Result<map<string, U32>, PoisonError>)
    ensures r.Success? <==> !s.poisoned
    ensures r.Success? ==> r.value == s.games
  {
    if s.poisoned then Failure(PoisonError) else Success(s.games)
  }

  /** `read_from_hash`: a read whose failure is reported as the low-level
      `PoisonedHash`. */
  function ReadFromHash(s: Store): (r: Result<map<string, U32>, LowLevelError>)
    ensures r.Success? <==> !s.poisoned
    ensures r.Success? ==> r.value == s.games
    ensures r.Failure? ==> r.error == PoisonedHash
  {
    Read(s).MapFailure(_ => PoisonedHash)
  }

  /** `RwLock::write` followed by `HashMap::insert`: the write lock is taken
      and the pair stored, replacing any earlier secret under the same id.
      A poisoned lock yields an error and the store is left as it was. */
  function WriteInsert(s: Store, id: string, secret: U32): (r: Result<Store, PoisonError>)
    ensures r.Success? <==> !s.poisoned
    ensures r.Success? ==> !r.value.poisoned
    ensures r.Success? ==> id in r.value.games && r.value.games[id] == secret
    ensures r.Success? ==> r.value.games.Keys == s.games.Keys + {id}
    ensures r.Success? ==> forall k :: k in s.games && k != id ==> r.value.games[k] == s.games[k]
    ensures r.Success? && id !in s.games ==> |r.value.games| == |s.games| + 1
  {
    if s.poisoned then Failure(PoisonError)
    else Success(Store(s.games[id := secret], false))
  }
}
