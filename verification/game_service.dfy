/** The three routed operations of the service: `generate_game_handler`,
    `reveal_handler_2` (with its helper `get_guess`) and `guess_num_handler`.
    Each is one atomic step over the store; the id and the secret that the
    program draws from `Uuid::new_v4` and `rand::thread_rng` are parameters. */
module GameService {
  import opened Results
  import opened Errors
  import opened Decimal
  import opened GameStore

  /** What creating a game gives: the grown store and the new id, or a
      panic of `.write().unwrap()` on a poisoned lock. */
  datatype CreateOutcome = Created(store: Store, id: string) | Panicked

  /** The verdict on a guess, named after the guess's side of the secret:
      `Greater` is "your guess is greater", `Lesser` "your guess is lesser". */
  datatype GuessOutcome = Correct(secret: U32) | Greater | Lesser

  // ---------------------------------------------------------------- create

  /** `generate_game_handler`: store `secret` under `id` and hand back `id`. */
  function GenerateGame(s: Store, id: string, secret: Secret): (r: CreateOutcome)
    ensures r.Panicked? <==> s.poisoned
    ensures r.Created? ==> r.id == id && !r.store.poisoned
    ensures r.Created? ==> id in r.store.games && r.store.games[id] == secret
    ensures r.Created? ==> r.store.games.Keys == s.games.Keys + {id}
    ensures r.Created? ==> forall k :: k in s.games && k != id ==> r.store.games[k] == s.games[k]
    ensures r.Created? && id !in s.games ==> |r.store.games| == |s.games| + 1
    ensures r.Created? && SecretsInRange(s) ==> SecretsInRange(r.store)
  {
    match WriteInsert(s, id, secret)
    case Success(s') => Created(s', id)
    case Failure(_) => Panicked
  }

  // ---------------------------------------------------------------- reveal

  /** `get_guess`: look `id` up in a read snapshot. A missing entry is
      raised as `PoisonedHash` and re-contextualised as `InvalidGame{id}`;
      only the outer context is kept. */
  function GetGuess(snapshot: map<string, U32>, id: string): (r: Result<U32, MainError>)
    ensures r.Success? <==> id in snapshot
    ensures r.Success? ==> r.value == snapshot[id]
    ensures r.Failure? ==> r.error == MainError.InvalidGame(id)
  {
    var found: Result<U32, LowLevelError> :=
      if id in snapshot then Success(snapshot[id]) else Failure(PoisonedHash);
    found.MapFailure(_ => MainError.InvalidGame(id))
  }

  /** `reveal_handler_2` up to its final `to_string`: the stored secret, or
      `UnknownCause` for a poisoned lock, or `InvalidGame{id}` for an
      unknown id. `NoGuessvalueForId` is never produced. */
  function RevealSecret(s: Store, id: string): (r: Result<U32, MainError>)
    ensures s.poisoned ==> r == Failure(MainError.UnknownCause)
    ensures !s.poisoned && id in s.games ==> r == Success(s.games[id])
    ensures !s.poisoned && id !in s.games ==> r == Failure(MainError.InvalidGame(id))
    ensures r.Failure? ==> !r.error.NoGuessvalueForId?
  {
    var snapshot :- ReadFromHash(s).MapFailure(_ => MainError.UnknownCause);
    GetGuess(snapshot, id)
  }

  /** `reveal_handler_2` as routed: the secret rendered in decimal. */
  function RevealHandler(s: Store, id: string): (r: Result<string, MainError>)
    ensures r.Success? <==> RevealSecret(s, id).Success?
    ensures r.Failure? ==> r.error == RevealSecret(s, id).error
    ensures r.Success? ==> AllDigits(r.value) && ParseDecimal(r.value) == RevealSecret(s, id).value
  {
    var text := RevealSecret(s, id).MapValue((v: U32) => ToDecimal(v));
    if text.Success? then ParseToDecimal(RevealSecret(s, id).value); text else text
  }

  // ---------------------------------------------------------------- guess

  /** The three-way comparison of the stored secret with the guess. */
  function Classify(secret: U32, guess: U32): (o: GuessOutcome)
    ensures o.Correct? <==> guess == secret
    ensures o.Correct? ==> o.secret == secret
    ensures o.Greater? <==> secret < guess
    ensures o.Lesser? <==> guess < secret
  {
    if secret == guess then Correct(secret)
    else if secret < guess then Greater
    else Lesser
  }

  /** `guess_num_handler` up to its message: a poisoned lock gives
      `CustomErrors::InvalidGame{id}`, an unknown id
      `GuessDataMissingForGame{id}`, a known id the comparison verdict. */
  function GuessNum(s: Store, id: string, guess: U32): (r: Result<GuessOutcome, CustomError>)
    ensures s.poisoned ==> r == Failure(CustomError.InvalidGame(id))
    ensures !s.poisoned && id !in s.games ==> r == Failure(GuessDataMissingForGame(id))
    ensures !s.poisoned && id in s.games ==> r == Success(Classify(s.games[id], guess))
    ensures r.Failure? ==> !r.error.OtherError?
  {
    var snapshot :- Read(s).MapFailure(_ => CustomError.InvalidGame(id));
    var secret :-
      if id in snapshot then Success(snapshot[id])
      else Failure(GuessDataMissingForGame(id));
    Success(Classify(secret, guess))
  }

  const CorrectPrefix: string := "YOur guess is correct "
  const GreaterText: string := "YOur guess is greater"
  const LesserText: string := "YOur guess is lesser"

  /** The success message of `guess_num_handler` for a verdict. */
  function OutcomeText(o: GuessOutcome): string {
    match o
    case Correct(secret) => CorrectPrefix + ToDecimal(secret)
    case Greater => GreaterText
    case Lesser => LesserText
  }

  /** Reads a verdict back from a success message. */
  function ParseOutcomeText(t: string): Option<GuessOutcome> {
    if t == GreaterText then Some(Greater)
    else if t == LesserText then Some(Lesser)
    else if |t| > |CorrectPrefix| && t[..|CorrectPrefix|] == CorrectPrefix
         && AllDigits(t[|CorrectPrefix|..])
         && ParseDecimal(t[|CorrectPrefix|..]) < 0x1_0000_0000
    then Some(Correct(ParseDecimal(t[|CorrectPrefix|..])))
    else None
  }

  /** `guess_num_handler` as routed: the verdict rendered as its message. */
  function GuessHandler(s: Store, id: string, guess: U32): (r: Result<string, CustomError>)
    ensures r.Success? <==> GuessNum(s, id, guess).Success?
    ensures r.Failure? ==> r.error == GuessNum(s, id, guess).error
    ensures r.Success? ==> ParseOutcomeText(r.value) == Some(GuessNum(s, id, guess).value)
  {
    var text := GuessNum(s, id, guess).MapValue(OutcomeText);
    if text.Success? then OutcomeTextRoundTrip(GuessNum(s, id, guess).value); text else text
  }

  // ---------------------------------------------------------------- lemmas

  /** Each message names exactly one verdict. */
  lemma OutcomeTextRoundTrip(o: GuessOutcome)
    ensures ParseOutcomeText(OutcomeText(o)) == Some(o)
  {
    if o.Correct? {
      var digits := ToDecimal(o.secret);
      var t := CorrectPrefix + digits;
      assert t[..|CorrectPrefix|] == CorrectPrefix;
      assert t[|CorrectPrefix|..] == digits;
      assert |t| > |GreaterText| && |t| > |LesserText|;
      ParseToDecimal(o.secret);
    }
  }

  /** Position of a verdict on the number line relative to the secret. */
  function Rank(o: GuessOutcome): nat {
    match o
    case Lesser => 0
    case Correct(_) => 1
    case Greater => 2
  }

  /** Raising the guess never moves the verdict back down: the guesses
      below the secret, the secret, and the guesses above it form three
      consecutive bands, so the hints can steer a search. */
  lemma ClassifyMonotone(secret: U32, g1: U32, g2: U32)
    requires g1 <= g2
    ensures Rank(Classify(secret, g1)) <= Rank(Classify(secret, g2))
    ensures Classify(secret, g1).Correct? && Classify(secret, g2).Correct? ==> g1 == g2
  {
  }

  /** Reveal and guess consult the same entry but report each failure under
      their own error: a poisoned lock is `UnknownCause` for one and
      `CustomErrors::InvalidGame` for the other, a missing id is
      `MainError::InvalidGame` for one and `GuessDataMissingForGame` for the
      other; and a guess is correct exactly when it is the revealed secret. */
  lemma RevealGuessAgree(s: Store, id: string, g: U32)
    ensures RevealSecret(s, id) == Failure(MainError.UnknownCause)
            <==> GuessNum(s, id, g) == Failure(CustomError.InvalidGame(id))
    ensures RevealSecret(s, id) == Failure(MainError.InvalidGame(id))
            <==> GuessNum(s, id, g) == Failure(GuessDataMissingForGame(id))
    ensures RevealSecret(s, id) == Success(g) <==> GuessNum(s, id, g) == Success(Correct(g))
  {
  }

  /** A game created on a healthy store is immediately revealable with its
      secret and guessable, and every other id reveals and guesses as before. */
  lemma CreateThenReveal(s: Store, id: string, secret: Secret)
    requires !s.poisoned
    ensures GenerateGame(s, id, secret).Created?
    ensures var s' := GenerateGame(s, id, secret).store;
            && RevealSecret(s', id) == Success(secret as U32)
            && GuessNum(s', id, secret) == Success(Correct(secret))
            && (forall k :: k != id ==> RevealSecret(s', k) == RevealSecret(s, k))
            && (forall k, g: U32 :: k != id ==> GuessNum(s', k, g) == GuessNum(s, k, g))
  {
  }
}
