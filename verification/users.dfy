/**
 The user store as the router sees it: the records it creates and the two
 queries it issues, `User.find({username}).count()` and
 `User.findOne({username})`.
 */
module Users {
  import opened Wrappers

  /** The value `User.hashPassword` resolves to. bcrypt itself is not
      modelled; a digest is a value of its own type, never a plaintext
      string. */
  type Digest(==)

  /** A stored user. `password` holds a digest; `points` is maintained by
      the scoring flow. Picks are not modelled. */
  datatype User = User(username: string, password: Digest, name: string, points: int)

  /** The collection of users, in insertion order. */
  type Store = seq<User>

  /** Some user in the store has this username. */
  predicate Taken(store: Store, username: string) {
    exists i | 0 <= i < |store| :: store[i].username == username
  }

  /** No two users share a username. */
  ghost predicate UniqueUsernames(store: Store) {
    forall i, j :: 0 <= i < j < |store| ==> store[i].username != store[j].username
  }

  /** `User.find({username}).count()`: the number of users with that
      username; zero exactly when the username is free. */
  function CountUsername(store: Store, username: string): (n: nat)
    ensures n <= |store|
    ensures n == 0 <==> !Taken(store, username)
  {
    if |store| == 0 then 0
    else
      var rest := CountUsername(store[1..], username);
      assert Taken(store, username) <==>
        store[0].username == username || Taken(store[1..], username) by {
        if Taken(store[1..], username) {
          var i :| 0 <= i < |store| - 1 && store[1..][i].username == username;
          assert store[i + 1].username == username;
        }
        if Taken(store, username) && store[0].username != username {
          var i :| 0 <= i < |store| && store[i].username == username;
          assert store[1..][i - 1].username == username;
        }
      }
      (if store[0].username == username then 1 else 0) + rest
  }

  /** `User.findOne({username})`: the first user with that username, if any. */
  function FindOne(store: Store, username: string): (r: Option<User>)
    ensures r.None? <==> !Taken(store, username)
    ensures r.Some? ==> r.value in store && r.value.username == username
  {
    if |store| == 0 then None
    else if store[0].username == username then Some(store[0])
    else
      var rest := FindOne(store[1..], username);
      assert Taken(store, username) ==> Taken(store[1..], username) by {
        if Taken(store, username) {
          var i :| 0 <= i < |store| && store[i].username == username;
          assert store[1..][i - 1].username == username;
        }
      }
      rest
  }

  /** In a store with unique usernames, `findOne` by a stored user's username
      returns that user. */
  lemma {:induction false} FindOneUnique(store: Store, i: nat)
    requires UniqueUsernames(store)
    requires i < |store|
    ensures FindOne(store, store[i].username) == Some(store[i])
  {
    if i > 0 {
      assert UniqueUsernames(store[1..]);
      FindOneUnique(store[1..], i - 1);
    }
  }
}
