/**
 Properties of the signup, lookup and list handlers taken over several
 requests.
 */
module RouterProperties {
  import opened Wrappers
  import opened Strings
  import opened Signup
  import opened SignupProperties
  import opened Users
  import opened Router

  /** A body missing a field is answered 422 at the first missing field and
      nothing is stored. */
  lemma MissingFieldLeavesStore(store: Store, body: Body, env: Env, f: Field)
    requires !Present(body, f)
    requires forall g :: Rank(g) < Rank(f) ==> Present(body, g)
    ensures Register(store, body, env) ==
      Outcome(store, Unprocessable(ValidationError(MissingField, f)))
  {
    MissingFieldWins(body, f);
  }

  /** Signup keeps usernames unique. */
  lemma RegisterPreservesUnique(store: Store, body: Body, env: Env)
    requires UniqueUsernames(store)
    ensures UniqueUsernames(Register(store, body, env).store)
  {
    var out := Register(store, body, env);
    if out.response.Created? {
      var u := out.response.record;
      forall i | 0 <= i < |store| ensures store[i].username != u.username {
        assert !Taken(store, Text(body, Username));
      }
    }
  }

  /** After a successful signup, looking the username up finds the new user. */
  lemma RegisterThenLookup(store: Store, body: Body, env: Env)
    requires Register(store, body, env).response.Created?
    ensures var out := Register(store, body, env);
      Lookup(out.store, Text(body, Username), false) == Found(out.response.record)
  {
    var out := Register(store, body, env);
    var u := out.response.record;
    assert !Taken(store, u.username);
    FindOneAfterAppend(store, u);
  }

  /** Appending a user whose username is free makes `findOne` return it. */
  lemma {:induction false} FindOneAfterAppend(store: Store, u: User)
    requires !Taken(store, u.username)
    ensures FindOne(store + [u], u.username) == Some(u)
  {
    if |store| > 0 {
      assert (store + [u])[1..] == store[1..] + [u];
      FindOneAfterAppend(store[1..], u);
    }
  }

  /** Repeating a successful signup is answered 422 `Username already taken`
      at `username`, and the store does not grow. */
  lemma RegisterTwiceRejected(store: Store, body: Body, env: Env, env': Env)
    requires Register(store, body, env).response.Created?
    requires !env'.countFails
    ensures var first := Register(store, body, env);
      Register(first.store, body, env') ==
        Outcome(first.store, Unprocessable(ValidationError(UsernameTaken, Username)))
  {
    var first := Register(store, body, env);
    assert first.store[|store|].username == Text(body, Username);
  }

  /** In a store with unique usernames, looking up any stored user's
      username answers 200 with that user. */
  lemma LookupFindsStoredUser(store: Store, i: nat)
    requires UniqueUsernames(store)
    requires i < |store|
    ensures Lookup(store, store[i].username, false) == Found(store[i])
  {
    FindOneUnique(store, i);
  }

  /** `alice` / `abcde` / `Alice` signs up on an empty store, and the same
      request a second time is refused at `username`. */
  lemma AliceScenario(env: Env)
    requires !env.countFails && !env.createFails
    requires env.hash("abcde").Some?
    ensures var body := map["username" := JsonString("alice"),
                            "password" := JsonString("abcde"),
                            "name" := JsonString("Alice")];
      var first := Register([], body, env);
      && Status(first.response) == 201
      && |first.store| == 1
      && first.store[0].username == "alice"
      && Register(first.store, body, env).response ==
           Unprocessable(ValidationError(UsernameTaken, Username))
  {
    var body := map["username" := JsonString("alice"),
                    "password" := JsonString("abcde"),
                    "name" := JsonString("Alice")];
    assert Text(body, Username) == "alice" && Text(body, Password) == "abcde";
    assert Text(body, Name) == "Alice";
    assert Tight("alice") && Tight("abcde");
    assert Acceptable(body);
    RegisterTwiceRejected([], body, env, env);
  }
}
