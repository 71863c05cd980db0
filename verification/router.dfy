/**
 The route handlers of users/router.js as state transitions over the user
 store: signup (lines 37-139), lookup by username (lines 26-35) and the
 ranked list of all users (lines 19-24). Authentication in front of the two
 read routes is not part of this model; the handlers are modelled as reached
 by an authenticated request.
 */
module Router {
  import opened Wrappers
  import opened Strings
  import opened Signup
  import opened Users
  import opened Ranking

  /** What the collaborators outside this file do on one request: whether the
      persistence calls reject, what `User.hashPassword` resolves to (`None`
      when it rejects), and the `points` the schema gives a new user. */
  datatype Env = Env(
    countFails: bool,
    hash: string -> Option<Digest>,
    createFails: bool,
    defaultPoints: int)

  /** A rejected promise in the signup chain: either the tagged object built
      for a taken username, or anything else (a database or bcrypt error). */
  datatype Rejection = Tagged(error: ValidationError) | Untagged

  /** The HTTP response. A record stands for its `apiRepr()` projection. */
  datatype Response =
    | Created(record: User)
    | Unprocessable(error: ValidationError)
    | Found(record: User)
    | Listed(records: seq<User>)
    | ServerError

  function Status(r: Response): int {
    match r
    case Created(_) => 201
    case Unprocessable(_) => ValidationCode
    case Found(_) => 200
    case Listed(_) => 200
    case ServerError => 500
  }

  /** The `.catch` of the signup chain (lines 133-138): only errors whose
      `reason` is `'ValidationError'` reach the client; everything else is a
      generic 500. */
  function CatchSignup(rej: Rejection): (r: Response)
    ensures Status(r) == 422 <==> rej.Tagged?
    ensures Status(r) == 500 <==> rej.Untagged?
    ensures r.Unprocessable? ==> r.error == rej.error
  {
    match rej
    case Tagged(e) => Unprocessable(e)
    case Untagged => ServerError
  }

  /** The store and the response after one request. */
  datatype Outcome = Outcome(store: Store, response: Response)

  /** The user a successful signup creates: the username as given, the name
      trimmed, the digest in place of the password. */
  function NewUser(s: SignupFields, digest: Digest, points: int): (u: User)
    ensures u.username == s.username && u.password == digest && u.points == points
    ensures Tight(u.name) && |u.name| <= |s.name|
    ensures TrimLo(s.name) + |u.name| <= |s.name|
    ensures u.name == s.name[TrimLo(s.name)..TrimLo(s.name) + |u.name|]
    ensures AllWhitespace(s.name, 0, TrimLo(s.name))
    ensures AllWhitespace(s.name, TrimLo(s.name) + |u.name|, |s.name|)
    ensures |s.name| == 0 || Tight(s.name) ==> u.name == s.name
  {
    TrimFixedIffTight(s.name);
    User(s.username, digest, Trim(s.name), points)
  }

  /** `POST /users/signup`: validate, check the username is free, hash,
      create. Every failure leaves the store as it was; success appends
      exactly one user. */
  function Register(store: Store, body: Body, env: Env): (out: Outcome)
    ensures Validate(body).Failure? ==>
      out == Outcome(store, Unprocessable(Validate(body).error))
    ensures Status(out.response) in {201, 422, 500}
    ensures Status(out.response) != 201 ==> out.store == store
    ensures Status(out.response) == 201 <==>
      && Acceptable(body)
      && !env.countFails
      && !Taken(store, Text(body, Username))
      && env.hash(Text(body, Password)).Some?
      && !env.createFails
    ensures out.response.Created? ==>
      && out.store == store + [out.response.record]
      && out.response.record.username == Text(body, Username)
      && out.response.record.name == Trim(Text(body, Name))
      && env.hash(Text(body, Password)) == Some(out.response.record.password)
      && out.response.record.points == env.defaultPoints
    ensures Acceptable(body) && !env.countFails && Taken(store, Text(body, Username)) ==>
      out == Outcome(store, Unprocessable(ValidationError(UsernameTaken, Username)))
    ensures
      var failing := env.countFails ||
        (!Taken(store, Text(body, Username)) &&
         (env.hash(Text(body, Password)).None? || env.createFails));
      Acceptable(body) && failing ==> out == Outcome(store, ServerError)
  {
    match Validate(body)
    case Failure(e) => Outcome(store, Unprocessable(e))
    case Success(s) =>
      if env.countFails then Outcome(store, CatchSignup(Untagged))
      else if CountUsername(store, s.username) > 0 then
        Outcome(store, CatchSignup(Tagged(ValidationError(UsernameTaken, Username))))
      else match env.hash(s.password)
        case None => Outcome(store, CatchSignup(Untagged))
        case Some(digest) =>
          if env.createFails then Outcome(store, CatchSignup(Untagged))
          else
            var user := NewUser(s, digest, env.defaultPoints);
            Outcome(store + [user], Created(user))
  }

  /** `GET /users/:username`: the first user with that username. When there
      is none, `user.apiRepr()` throws on `null` and the catch answers 500,
      exactly as when the query itself fails. */
  function Lookup(store: Store, username: string, findFails: bool): (r: Response)
    ensures Status(r) in {200, 500}
    ensures r.Found? <==> !findFails && Taken(store, username)
    ensures !r.Found? ==> r == ServerError
    ensures r.Found? ==> r.record in store && r.record.username == username
  {
    if findFails then ServerError
    else match FindOne(store, username)
      case None => ServerError
      case Some(user) => Found(user)
  }

  /** `GET /users/all`: every user, highest points first. */
  function ListAll(store: Store, findFails: bool): (r: Response)
    ensures findFails <==> r == ServerError
    ensures !findFails ==> r.Listed?
    ensures r.Listed? ==> multiset(r.records) == multiset(store) && Descending(r.records)
  {
    if findFails then ServerError else Listed(SortByKey(store))
  }
}
