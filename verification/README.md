# Guessing-game store, modelled in Dafny

A model of the in-memory game store of the `guessing-game` service and of the
three routed operations over it. The service keeps a table from game id
(a UUID string) to a secret `u32` behind a reader-writer lock that can be
poisoned:

- **create** (`generate_game_handler`) draws a secret in [0, 20) and stores it
  under a fresh id;
- **reveal** (`reveal_handler_2` with `read_from_hash` and `get_guess`) returns
  the stored secret as decimal text;
- **guess** (`guess_num_handler`) compares a guess with the secret and answers
  "correct", "greater" or "lesser".

The lock is abstracted away. Each handler is one atomic step over an immutable
`Store(games: map<string, U32>, poisoned: bool)`. Any concurrent execution
is therefore some sequence of such steps, and `Trace` proves its properties
for every sequence. The UUID and the random draw are parameters. The draw has
the subset type `Secret` (values below 20), which stands for the guarantee of
`gen_range(0..20)`.

Files:

- `results.dfy`: `Option` and `Result`. `MapFailure` stands for `map_err` and
  `change_context`; `:-` stands for `?`.
- `errors.dfy`: `LowLevelErrors`, `MainError` and `CustomErrors`, with all of
  their variants.
- `decimal.dfy`: `u32::to_string` and the parse that inverts it.
- `game_store.dfy`: the store, lock reads, `read_from_hash`, and the
  write-locked insert.
- `game_service.dfy`: the three handlers, the comparison, and the success
  messages.
- `trace.dfy`: runs of requests and the invariants that hold over them.

Facts about the code that the model keeps:

- A poisoned reveal fails with `MainError::UnknownCause` (src/main.rs:117).
  `PoisonedHash` is only the low-level error that `read_from_hash` raises
  before the handler re-contextualises it.
- A poisoned guess fails with `CustomErrors::InvalidGame{id}`
  (src/main.rs:146-151).
- Create on a poisoned lock panics in `.write().unwrap()` (src/main.rs:105-107).
  The model gives this as the `Panicked` outcome.
- `HashMap::insert` replaces an existing entry (src/main.rs:109). So a create
  under an id that is already present overwrites that game's secret. Id
  freshness is a hypothesis only of the lemmas that need it.

## Model

| member | source | states |
|---|---|---|
| GameStore.Read | src/main.rs:146-151 | a lock read succeeds exactly when the lock is not poisoned, and then sees the whole current table |
| GameStore.ReadFromHash | src/main.rs:215-227 | `read_from_hash` fails exactly on a poisoned lock, always with `PoisonedHash`, and otherwise yields the current table |
| GameStore.WriteInsert | src/main.rs:105-109 | the write-locked insert fails exactly on a poisoned lock; otherwise the id maps to the secret, the key set grows by that id only, every other entry keeps its value, and a fresh id adds exactly one entry |
| GameService.GenerateGame | src/main.rs:101-111 | create panics exactly on a poisoned lock; otherwise it returns the given id, stores the drawn secret under it, changes no other entry, grows the table by one for a fresh id, and keeps every secret in [0, 20) |
| GameService.GetGuess | src/main.rs:229-242 | the lookup succeeds exactly for a present id, returning its stored secret; a missing id fails with `MainError::InvalidGame` carrying that same id |
| GameService.RevealSecret | src/main.rs:113-124 | reveal on a poisoned lock fails with `UnknownCause`, never with `InvalidGame`; on a healthy lock it returns the stored secret of a present id or fails with `InvalidGame{id}` for an absent one; `NoGuessvalueForId` is never produced |
| GameService.RevealHandler | src/main.rs:121-123 | the routed reveal fails exactly when the secret lookup fails, with the same error; its success text is all digits and parses back to the stored secret |
| Decimal.ToDecimal | src/main.rs:123 | the rendering of a number is non-empty, all digits, has no leading zero unless the number is zero, and is one character long exactly for numbers below ten |
| Decimal.ParseToDecimal | src/main.rs:123 | parsing the decimal text of a number gives that number back |
| Decimal.ToDecimalInjective | src/main.rs:123 | two numbers render to the same text exactly when they are equal |
| GameService.Classify | src/main.rs:161-168 | the verdict is `Correct` exactly when the guess equals the secret, and then carries the secret; it is "greater" exactly when the secret is below the guess, and "lesser" exactly when the guess is below the secret |
| GameService.GuessNum | src/main.rs:141-169 | guess on a poisoned lock fails with `CustomErrors::InvalidGame{id}`; an absent id fails with `GuessDataMissingForGame{id}`; a present id gets the three-way verdict against its stored secret; `OtherError` is never produced |
| GameService.GuessHandler | src/main.rs:161-168 | the routed guess fails exactly when the verdict fails, with the same error; its success message is the `OutcomeText` rendering of the verdict (the three `format!` messages) and reads back as that verdict through `ParseOutcomeText` |
| GameService.OutcomeTextRoundTrip | src/main.rs:163-167 | the three success messages are pairwise distinct and each names its verdict; the correct message carries the secret |
| GameService.ClassifyMonotone | src/main.rs:162-168 | raising the guess never moves the verdict from "greater" towards "lesser", and only one guess is correct |
| GameService.RevealGuessAgree | src/main.rs:113-169 | for the same id, reveal fails with `UnknownCause` exactly when guess fails with `CustomErrors::InvalidGame`, and reveal fails with `MainError::InvalidGame` exactly when guess fails with `GuessDataMissingForGame`; a guess is correct exactly when it equals the revealed secret |
| GameService.CreateThenReveal | src/main.rs:101-124 | after a create on a healthy lock, the new id reveals its secret and accepts it as the correct guess; every other id reveals and guesses exactly as before |
| Trace.Step | src/main.rs:86-88 | handling one request never clears or sets poisoning and never removes a game; reveal, guess and a panicking create leave the store unchanged |
| Trace.Run | src/main.rs:42-46 | any run answers each request once, never removes a game, and never changes the poison state |
| Trace.RunKeys | src/main.rs:101-111 | on a healthy lock the ids after a run are exactly the starting ids plus the ids the run's creates drew; on a poisoned lock they are exactly the starting ids |
| Trace.NeverCreatedNotFound | src/main.rs:113-169 | on a healthy lock, an id neither present at the start nor drawn by any create of the run makes reveal fail with `MainError::InvalidGame` and guess fail with `GuessDataMissingForGame`, both carrying that id |
| Trace.RunKeepsSecretsInRange | src/main.rs:104-109 | if every stored secret is in [0, 20), it stays so after any run |
| Trace.SecretsFromEmptyInRange | src/main.rs:75-111 | starting from the empty default store, every secret stored after any run is in [0, 20) |
| Trace.RunFreshCreates | src/main.rs:101-111 | with fresh ids on a healthy store, each create answers with its own id, no earlier game changes, each created id holds its drawn secret, and the table grows by exactly the number of creates |
| Trace.CreatedGamesRevealable | src/main.rs:101-124 | after such a run, every created id reveals its own secret and accepts it as the correct guess |
| Trace.RunResponseAt | src/main.rs:86-88 | the response to a request is what that request meets on the store left by the requests before it |
| Trace.LaterRequestsSeeSecret | src/main.rs:113-169 | a reveal anywhere after a create returns that game's secret, whatever came in between, and a later guess is judged against it; repeated reveals therefore agree |
| Trace.RunPoisoned | src/main.rs:105-151 | on a poisoned lock, a run leaves the store unchanged; every create panics, every reveal fails with `UnknownCause`, and every guess fails with `CustomErrors::InvalidGame` for its id |
| Trace.ScenarioG1 | src/main.rs:141-169 | a run with game "g1" and secret 7 answers guesses 7, 10 and 3 with correct, greater and lesser, and a reveal of "missing-id" fails with `InvalidGame{"missing-id"}` |

## Left out

- The HTTP layer is not modelled. That covers the axum router, the "Service alive" route, the server bind and the tokio runtime (src/main.rs:66-99). They are transport.
- Extraction of the path parameters is not modelled. Axum parses `/guess/:id/:guess` into a `String` and a `u32` and rejects bad input before any handler runs.
- The `IntoResponse` implementations and their status codes are not modelled. They only format text, and every one of them answers with status 500.
- Logging through `tracing_subscriber` is not modelled.
- `Uuid::new_v4` and `rand::thread_rng` are foreign randomness. They become the `id` and `secret` parameters. Freshness of the id is an explicit hypothesis (`FreshIds`).
- Real `RwLock` concurrency is not modelled. Each handler is one atomic step, and poisoning is a flag in the state. How a lock becomes poisoned is not modelled either: it needs a panic while the write lock is held, and no handler does that. The flag is an input state that no step changes.
- The error_stack report chain and the derive-macro message texts are not modelled. Only the outermost context of each report is kept. As a result, the model does not show that the chain for a missing id in `get_guess` starts with `LowLevelErrors::PoisonedHash`, even though the lock was healthy (src/main.rs:237).
- Dead code is not modelled. This covers the unrouted `reveal_handler`, `GuessError`, `GuessError2`, `AppError`, the blanket `From` implementations (src/main.rs:26-32, 48, 60-64, 126-139, 171-178) and the unused `AppState` (src/main.rs:36-39, 71-73). The variants `NoGuessvalueForId` and `OtherError` are declared but never raised. They are kept in the datatypes, and the model proves that they are never produced.
