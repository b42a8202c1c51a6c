/** Runs of requests against one store. The service handles requests
    concurrently, but every handler takes the lock for one atomic step, so
    any execution is some sequence of the steps below; the lemmas here hold
    for every such sequence. */
module Trace {
  import opened Results
  import opened Errors
  import opened GameStore
  import opened GameService

  /** One routed request, with the id and secret a create will draw. */
  datatype Request =
    | NewGame(id: string, secret: Secret)
    | RevealReq(id: string)
    | GuessReq(id: string, guess: U32)

  datatype Response =
    | GameCreated(id: string)
    | CreatePanicked
    | Revealed(answer: Result<U32, MainError>)
    | Guessed(verdict: Result<GuessOutcome, CustomError>)

  /** One request handled atomically. Only a successful create changes the
      store; a panicking create leaves it as it was. */
  function Step(s: Store, q: Request): (r: (Store, Response))
    ensures r.0.poisoned == s.poisoned
    ensures s.games.Keys <= r.0.games.Keys
    ensures !q.NewGame? || s.poisoned ==> r.0 == s
  {
    match q
    case NewGame(id, secret) =>
      (match GenerateGame(s, id, secret)
       case Created(s', id') => (s', GameCreated(id'))
       case Panicked => (s, CreatePanicked))
    case RevealReq(id) => (s, Revealed(RevealSecret(s, id)))
    case GuessReq(id, guess) => (s, Guessed(GuessNum(s, id, guess)))
  }

  /** The ids the creates of a run draw. */
  function CreatedIds(qs: seq<Request>): set<string>
    decreases |qs|
  {
    if |qs| == 0 then {}
    else (if qs[0].NewGame? then {qs[0].id} else {}) + CreatedIds(qs[1..])
  }

  /** Requests handled one after another: the final store and one response
      per request. Games are never removed and the poison state never
      changes. */
  function Run(s: Store, qs: seq<Request>): (r: (Store, seq<Response>))
    ensures |r.1| == |qs|
    ensures r.0.poisoned == s.poisoned
    ensures s.games.Keys <= r.0.games.Keys
    decreases |qs|
  {
    if |qs| == 0 then (s, [])
    else
      var (s1, resp) := Step(s, qs[0]);
      var (sn, resps) := Run(s1, qs[1..]);
      (sn, [resp] + resps)
  }

  /** How many create requests a run holds. */
  function CountCreates(qs: seq<Request>): nat
    decreases |qs|
  {
    if |qs| == 0 then 0
    else (if qs[0].NewGame? then 1 else 0) + CountCreates(qs[1..])
  }

  /** The ids the creates of a run draw are new to the store and to each
      other; the program relies on `Uuid::new_v4` for this. */
  predicate FreshIds(s: Store, qs: seq<Request>) {
    && (forall i :: 0 <= i < |qs| && qs[i].NewGame? ==> qs[i].id !in s.games)
    && (forall i, j :: 0 <= i < j < |qs| && qs[i].NewGame? && qs[j].NewGame? ==> qs[i].id != qs[j].id)
  }

  /** Every secret in the store was drawn from [0, 20), in any run. */
  lemma {:induction false} RunKeepsSecretsInRange(s: Store, qs: seq<Request>)
    requires SecretsInRange(s)
    ensures SecretsInRange(Run(s, qs).0)
    decreases |qs|
  {
    if |qs| > 0 {
      var s1 := Step(s, qs[0]).0;
      assert SecretsInRange(s1);
      RunKeepsSecretsInRange(s1, qs[1..]);
    }
  }

  /** From the empty store, every stored secret is in [0, 20). */
  lemma SecretsFromEmptyInRange(qs: seq<Request>)
    ensures SecretsInRange(Run(Empty, qs).0)
  {
    RunKeepsSecretsInRange(Empty, qs);
  }

  /** With fresh ids on a healthy store, each create answers with its own
      id, no earlier game is overwritten, each created game holds its drawn
      secret, and the store grows by exactly one game per create. */
  lemma {:induction false} RunFreshCreates(s: Store, qs: seq<Request>)
    requires !s.poisoned
    requires FreshIds(s, qs)
    ensures var (sn, resps) := Run(s, qs);
            && (forall k :: k in s.games ==> sn.games[k] == s.games[k])
            && (forall i :: 0 <= i < |qs| && qs[i].NewGame? ==>
                  qs[i].id in sn.games && sn.games[qs[i].id] == qs[i].secret)
            && (forall i :: 0 <= i < |qs| && qs[i].NewGame? ==> resps[i] == GameCreated(qs[i].id))
            && |sn.games| == |s.games| + CountCreates(qs)
    decreases |qs|
  {
    if |qs| > 0 {
      var q := qs[0];
      var rest := qs[1..];
      var (s1, resp) := Step(s, q);
      var (sn, resps) := Run(s1, rest);
      assert Run(s, qs) == (sn, [resp] + resps);
      assert FreshIds(s1, rest) by {
        forall i | 0 <= i < |rest| && rest[i].NewGame?
          ensures rest[i].id !in s1.games
        {
          assert qs[i + 1] == rest[i];
          if q.NewGame? {
            assert s1.games.Keys == s.games.Keys + {q.id};
          }
        }
        forall i, j | 0 <= i < j < |rest| && rest[i].NewGame? && rest[j].NewGame?
          ensures rest[i].id != rest[j].id
        {
          assert qs[i + 1] == rest[i] && qs[j + 1] == rest[j];
        }
      }
      RunFreshCreates(s1, rest);
      forall i | 0 <= i < |qs| && qs[i].NewGame?
        ensures qs[i].id in sn.games && sn.games[qs[i].id] == qs[i].secret
        ensures ([resp] + resps)[i] == GameCreated(qs[i].id)
      {
        if i > 0 {
          assert qs[i] == rest[i - 1];
        }
      }
    }
  }

  /** After creates with fresh ids, each created game reveals its own secret and accepts it as
      the correct guess. */
  lemma CreatedGamesRevealable(s: Store, qs: seq<Request>, i: nat)
    requires !s.poisoned
    requires FreshIds(s, qs)
    requires i < |qs| && qs[i].NewGame?
    ensures RevealSecret(Run(s, qs).0, qs[i].id) == Success(qs[i].secret as U32)
    ensures GuessNum(Run(s, qs).0, qs[i].id, qs[i].secret) == Success(Correct(qs[i].secret))
  {
    RunFreshCreates(s, qs);
  }

  /** The response to request `j` is what that request meets on the store
      left by the requests before it. */
  lemma {:induction false} RunResponseAt(s: Store, qs: seq<Request>, j: nat)
    requires j < |qs|
    ensures Run(s, qs).1[j] == Step(Run(s, qs[..j]).0, qs[j]).1
    decreases j
  {
    var (s1, resp) := Step(s, qs[0]);
    var rest := qs[1..];
    var (sn, resps) := Run(s1, rest);
    assert Run(s, qs) == (sn, [resp] + resps);
    if j == 0 {
      assert qs[..0] == [];
    } else {
      RunResponseAt(s1, rest, j - 1);
      assert qs[..j][0] == qs[0];
      assert qs[..j][1..] == rest[..j - 1];
      assert rest[j - 1] == qs[j];
    }
  }

  /** Reveal and guess never disturb a game: with fresh ids on a healthy
      store, every later reveal of a created id returns that game's secret,
      however many requests come in between, and every later guess is
      judged against it. */
  lemma LaterRequestsSeeSecret(s: Store, qs: seq<Request>, i: nat, j: nat)
    requires !s.poisoned
    requires FreshIds(s, qs)
    requires i < j < |qs| && qs[i].NewGame?
    requires (qs[j].RevealReq? || qs[j].GuessReq?) && qs[j].id == qs[i].id
    ensures qs[j].RevealReq? ==> Run(s, qs).1[j] == Revealed(Success(qs[i].secret as U32))
    ensures qs[j].GuessReq? ==>
              Run(s, qs).1[j] == Guessed(Success(Classify(qs[i].secret, qs[j].guess)))
  {
    var prefix := qs[..j];
    assert FreshIds(s, prefix) by {
      forall a | 0 <= a < |prefix| && prefix[a].NewGame?
        ensures prefix[a].id !in s.games
      {
        assert prefix[a] == qs[a];
      }
      forall a, b | 0 <= a < b < |prefix| && prefix[a].NewGame? && prefix[b].NewGame?
        ensures prefix[a].id != prefix[b].id
      {
        assert prefix[a] == qs[a] && prefix[b] == qs[b];
      }
    }
    RunFreshCreates(s, prefix);
    assert prefix[i] == qs[i];
    RunResponseAt(s, qs, j);
  }

  /** The ids a run leaves are exactly the starting ids plus the ids its
      creates drew, on a healthy lock; on a poisoned lock no id appears. */
  lemma {:induction false} RunKeys(s: Store, qs: seq<Request>)
    ensures !s.poisoned ==> Run(s, qs).0.games.Keys == s.games.Keys + CreatedIds(qs)
    ensures s.poisoned ==> Run(s, qs).0.games.Keys == s.games.Keys
    decreases |qs|
  {
    if |qs| > 0 {
      RunKeys(Step(s, qs[0]).0, qs[1..]);
    }
  }

  /** An id that neither was in the store nor was drawn by any create of the
      run is unknown afterwards: reveal fails with `MainError::InvalidGame`
      and guess with `GuessDataMissingForGame`, both carrying that id. */
  lemma NeverCreatedNotFound(s: Store, qs: seq<Request>, id: string, g: U32)
    requires !s.poisoned
    requires id !in s.games && id !in CreatedIds(qs)
    ensures RevealSecret(Run(s, qs).0, id) == Failure(MainError.InvalidGame(id))
    ensures GuessNum(Run(s, qs).0, id, g) == Failure(GuessDataMissingForGame(id))
  {
    RunKeys(s, qs);
  }

  /** The error each request meets on a poisoned lock. */
  function PoisonedResponse(q: Request): Response {
    match q
    case NewGame(_, _) => CreatePanicked
    case RevealReq(_) => Revealed(Failure(MainError.UnknownCause))
    case GuessReq(id, _) => Guessed(Failure(CustomError.InvalidGame(id)))
  }

  /** On a poisoned store nothing succeeds: the store stays as it is, every
      create panics, every reveal fails with `UnknownCause` and every guess
      with `CustomErrors::InvalidGame` for its id. */
  lemma {:induction false} RunPoisoned(s: Store, qs: seq<Request>)
    requires s.poisoned
    ensures Run(s, qs).0 == s
    ensures forall i :: 0 <= i < |qs| ==> Run(s, qs).1[i] == PoisonedResponse(qs[i])
    decreases |qs|
  {
    if |qs| > 0 {
      var rest := qs[1..];
      RunPoisoned(s, rest);
      forall i | 0 <= i < |qs|
        ensures Run(s, qs).1[i] == PoisonedResponse(qs[i])
      {
        if i > 0 {
          assert qs[i] == rest[i - 1];
        }
      }
    }
  }

  /** A worked run: game "g1" with secret 7, three guesses around it, and a
      reveal of an id that was never created. */
  lemma ScenarioG1()
    ensures var qs := [NewGame("g1", 7), GuessReq("g1", 7), GuessReq("g1", 10),
                       GuessReq("g1", 3), RevealReq("missing-id")];
            Run(Empty, qs).1 == [GameCreated("g1"), Guessed(Success(Correct(7))),
                                 Guessed(Success(Greater)), Guessed(Success(Lesser)),
                                 Revealed(Failure(MainError.InvalidGame("missing-id")))]
  {
  }
}
