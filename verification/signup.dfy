/**
 The validation pipeline of `POST /users/signup` (users/router.js:37-107):
 an ordered, short-circuiting sequence of checks over the JSON request body
 that reports at most one `ValidationError`.
 */
module Signup {
  import opened Wrappers
  import opened Strings

  /** A JSON value as the body parser produces it. Only the distinction
      between strings and everything else matters to the handler. */
  datatype Value = JsonString(text: string) | JsonNumber | JsonBoolean | JsonNull | JsonArray | JsonObject

  /** The parsed request body: field name to value. */
  type Body = map<string, Value>

  /** The three fields the handler reads. */
  datatype Field = Username | Password | Name

  /** The property name of a field in the request body and in error locations. */
  function Key(f: Field): string {
    match f
    case Username => "username"
    case Password => "password"
    case Name => "name"
  }

  /** Position of a field in `['username', 'password', 'name']`, the order of
      every field list in the handler. */
  function Rank(f: Field): nat {
    match f
    case Username => 0
    case Password => 1
    case Name => 2
  }

  /** `requiredFields`, `stringFields` and the key order of `sizedFields`. */
  const AllFields: seq<Field> := [Username, Password, Name]

  /** The field lists cover every field, each at its rank. */
  lemma EveryFieldListed()
    ensures forall f :: f in AllFields && AllFields[Rank(f)] == f
  {
    forall f: Field ensures f in AllFields && AllFields[Rank(f)] == f {
      match f
      case Username =>
      case Password =>
      case Name =>
    }
  }

  /** `explicityTrimmedFields`: `name` is not among them. */
  const TrimmedFields: seq<Field> := [Username, Password]

  /** The HTTP status every validation failure carries. */
  const ValidationCode := 422

  const MissingField := "Missing field"
  const IncorrectType := "Incorrect field type: expected string"
  const SurroundingWhitespace := "Cannot start or end with whitespace"
  const UsernameTaken := "Username already taken"

  /** The error object `{code: 422, reason: 'ValidationError', message, location}`. */
  datatype ValidationError = ValidationError(message: string, location: Field)

  /** The fields of a body that passed validation, as destructured at line 108. */
  datatype SignupFields = SignupFields(username: string, password: string, name: string)

  /** `Array.prototype.find`, by position: the index of the first element of
      `xs` satisfying `p`. */
  function FindIndex<T>(xs: seq<T>, p: T -> bool): (r: Option<nat>)
    ensures r.None? <==> forall i :: 0 <= i < |xs| ==> !p(xs[i])
    ensures r.Some? ==> r.value < |xs| && p(xs[r.value])
    ensures r.Some? ==> forall j :: 0 <= j < r.value ==> !p(xs[j])
  {
    if |xs| == 0 then None
    else if p(xs[0]) then Some(0)
    else match FindIndex(xs[1..], p)
      case None => None
      case Some(i) => Some(i + 1)
  }

  /** `fields.find(p)` over a prefix of `AllFields`: the result satisfies `p`
      and every field listed before it does not. */
  function Find(fields: seq<Field>, p: Field -> bool): (r: Option<Field>)
    requires |fields| <= |AllFields| && fields == AllFields[..|fields|]
    ensures r.None? <==> forall f :: f in fields ==> !p(f)
    ensures r.Some? ==> r.value in fields && p(r.value)
    ensures r.Some? ==> forall g :: Rank(g) < Rank(r.value) ==> !p(g)
  {
    match FindIndex(fields, p)
    case None => None
    case Some(i) =>
      assert forall g :: Rank(g) < i ==> fields[Rank(g)] == g;
      Some(fields[i])
  }

  /** `field in req.body`. */
  predicate Present(b: Body, f: Field) {
    Key(f) in b
  }

  /** `typeof req.body[field] === 'string'`. */
  predicate IsString(b: Body, f: Field) {
    Key(f) in b && b[Key(f)].JsonString?
  }

  /** The string value of a field, or "" when it is absent or not a string. */
  function Text(b: Body, f: Field): string {
    if IsString(b, f) then b[Key(f)].text else ""
  }

  /** `req.body[field].trim() !== req.body[field]`. */
  predicate Untrimmed(b: Body, f: Field) {
    Trim(Text(b, f)) != Text(b, f)
  }

  /** The `min` of `sizedFields`, when there is one. */
  function MinLength(f: Field): (r: Option<nat>)
    ensures r.Some? <==> f != Name
    ensures r.Some? ==> r.value >= 1
  {
    match f
    case Username => Some(1)
    case Password => Some(5)
    case Name => None
  }

  /** The `max` of `sizedFields`; bcrypt reads at most 72 characters of a password. */
  function MaxLength(f: Field): (r: nat)
    ensures MinLength(f).Some? ==> MinLength(f).value < r
    ensures f == Password ==> r == 72
  {
    match f
    case Username => 17
    case Password => 72
    case Name => 17
  }

  /** The trimmed lengths of the three fields, `req.body[field].trim().length`. */
  datatype Sizes = Sizes(username: nat, password: nat, name: nat)

  function Measure(b: Body): Sizes {
    Sizes(|Trim(Text(b, Username))|, |Trim(Text(b, Password))|, |Trim(Text(b, Name))|)
  }

  function Length(sz: Sizes, f: Field): nat {
    match f
    case Username => sz.username
    case Password => sz.password
    case Name => sz.name
  }

  predicate TooSmall(sz: Sizes, f: Field) {
    MinLength(f).Some? && Length(sz, f) < MinLength(f).value
  }

  predicate TooLarge(sz: Sizes, f: Field) {
    Length(sz, f) > MaxLength(f)
  }

  function AtLeastMessage(min: nat): string {
    "Must be at least " + Decimal(min) + " characters long"
  }

  function AtMostMessage(max: nat): string {
    "Must be at most " + Decimal(max) + " characters long"
  }

  /** Stage 1 (lines 38-47): the first absent field. */
  function CheckPresence(b: Body): (r: Option<ValidationError>)
    ensures r.None? <==> forall f :: Present(b, f)
    ensures r.Some? ==> r.value.message == MissingField
    ensures r.Some? ==> !Present(b, r.value.location)
    ensures r.Some? ==> forall g :: Rank(g) < Rank(r.value.location) ==> Present(b, g)
  {
    match Find(AllFields, f => !Present(b, f))
    case Some(f) => Some(ValidationError(MissingField, f))
    case None => None
  }

  /** Stage 2 (lines 48-59): the first field whose value is not a string. */
  function CheckTypes(b: Body): (r: Option<ValidationError>)
    ensures r.None? <==> forall f :: Present(b, f) ==> IsString(b, f)
    ensures r.Some? ==> r.value.message == IncorrectType
    ensures r.Some? ==> Present(b, r.value.location) && !IsString(b, r.value.location)
    ensures r.Some? ==> forall g :: Rank(g) < Rank(r.value.location) && Present(b, g) ==> IsString(b, g)
  {
    match Find(AllFields, f => Present(b, f) && !IsString(b, f))
    case Some(f) => Some(ValidationError(IncorrectType, f))
    case None => None
  }

  /** Stage 3 (lines 60-71): the first of `username`, `password` with
      surrounding whitespace. */
  function CheckWhitespace(b: Body): (r: Option<ValidationError>)
    ensures r.None? <==> !Untrimmed(b, Username) && !Untrimmed(b, Password)
    ensures r.Some? ==> r.value.message == SurroundingWhitespace
    ensures r.Some? ==> r.value.location != Name && Untrimmed(b, r.value.location)
    ensures r.Some? && r.value.location == Password ==> !Untrimmed(b, Username)
  {
    match Find(TrimmedFields, f => Untrimmed(b, f))
    case Some(f) => Some(ValidationError(SurroundingWhitespace, f))
    case None => None
  }

  /** Stage 4 (lines 72-107): both searches run; a too-small field wins over
      a too-large one. */
  function CheckSizes(sz: Sizes): (r: Option<ValidationError>)
    ensures r.None? <==> forall f :: !TooSmall(sz, f) && !TooLarge(sz, f)
    ensures forall f :: TooSmall(sz, f) ==>
      && r.Some?
      && TooSmall(sz, r.value.location)
      && Rank(r.value.location) <= Rank(f)
      && r.value.message == AtLeastMessage(MinLength(r.value.location).value)
    ensures (forall f :: !TooSmall(sz, f)) && r.Some? ==>
      && TooLarge(sz, r.value.location)
      && r.value.message == AtMostMessage(MaxLength(r.value.location))
      && forall g :: Rank(g) < Rank(r.value.location) ==> !TooLarge(sz, g)
  {
    var small := Find(AllFields, f => TooSmall(sz, f));
    var large := Find(AllFields, f => TooLarge(sz, f));
    EveryFieldListed();
    match small
    case Some(f) => Some(ValidationError(AtLeastMessage(MinLength(f).value), f))
    case None =>
      match large
      case Some(f) => Some(ValidationError(AtMostMessage(MaxLength(f)), f))
      case None => None
  }

  /** Every field is present with a string value. */
  predicate AllStrings(b: Body) {
    IsString(b, Username) && IsString(b, Password) && IsString(b, Name)
  }

  /** What a body must satisfy to be registered: the three fields present as
      strings, `username` and `password` without surrounding whitespace,
      `username` 1..17 and `password` 5..72 characters, the trimmed `name` at
      most 17. */
  predicate Acceptable(b: Body) {
    && AllStrings(b)
    && Tight(Text(b, Username)) && Tight(Text(b, Password))
    && 1 <= |Text(b, Username)| <= 17
    && 5 <= |Text(b, Password)| <= 72
    && |Trim(Text(b, Name))| <= 17
  }

  /** Stages 1 and 2 pass exactly when all three fields are strings. */
  lemma PresenceAndTypes(b: Body)
    ensures CheckPresence(b).None? && CheckTypes(b).None? <==> AllStrings(b)
  {
  }

  /** Stage 3 passes exactly when `username` and `password` are tight, and
      then their trimmed lengths are their lengths. */
  lemma WhitespaceStage(b: Body)
    ensures CheckWhitespace(b).None? <==> Tight(Text(b, Username)) && Tight(Text(b, Password))
    ensures CheckWhitespace(b).None? ==>
      Measure(b).username == |Text(b, Username)| && Measure(b).password == |Text(b, Password)|
  {
    TrimFixedIffTight(Text(b, Username));
    TrimFixedIffTight(Text(b, Password));
  }

  /** Stage 4 passes exactly when every measured length is within bounds. */
  lemma SizeStage(sz: Sizes)
    ensures CheckSizes(sz).None? <==>
      1 <= sz.username <= 17 && 5 <= sz.password <= 72 && sz.name <= 17
  {
    if CheckSizes(sz).None? {
      assert !TooSmall(sz, Username) && !TooLarge(sz, Username);
      assert !TooSmall(sz, Password) && !TooLarge(sz, Password);
      assert !TooLarge(sz, Name);
    }
  }

  /** The whole pipeline: the first stage that reports an error decides the
      response; a body that passes all four yields its three fields. */
  function Validate(b: Body): (r: Result<SignupFields, ValidationError>)
    ensures r.Success? <==> Acceptable(b)
    ensures r.Success? ==> r.value == SignupFields(Text(b, Username), Text(b, Password), Text(b, Name))
  {
    PresenceAndTypes(b);
    WhitespaceStage(b);
    SizeStage(Measure(b));
    if CheckPresence(b).Some? then Failure(CheckPresence(b).value)
    else if CheckTypes(b).Some? then Failure(CheckTypes(b).value)
    else if CheckWhitespace(b).Some? then Failure(CheckWhitespace(b).value)
    else if CheckSizes(Measure(b)).Some? then Failure(CheckSizes(Measure(b)).value)
    else Success(SignupFields(Text(b, Username), Text(b, Password), Text(b, Name)))
  }
}
