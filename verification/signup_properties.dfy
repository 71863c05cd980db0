/**
 Properties of the signup validation pipeline: which error a body receives
 and why (users/router.js:37-107).
 */
module SignupProperties {
  import opened Wrappers
  import opened Strings
  import opened Signup

  /** A missing field is reported first, and the location is the first absent
      field in the order username, password, name. */
  lemma MissingFieldWins(b: Body, f: Field)
    requires !Present(b, f)
    requires forall g :: Rank(g) < Rank(f) ==> Present(b, g)
    ensures Validate(b) == Failure(ValidationError(MissingField, f))
  {
    var e := CheckPresence(b).value;
    assert e.location == f by {
      assert Rank(e.location) <= Rank(f);
      assert Rank(f) <= Rank(e.location);
    }
  }

  /** With every field present, the first non-string value is reported. */
  lemma FirstNonStringWins(b: Body, f: Field)
    requires forall g :: Present(b, g)
    requires !IsString(b, f)
    requires forall g :: Rank(g) < Rank(f) ==> IsString(b, g)
    ensures Validate(b) == Failure(ValidationError(IncorrectType, f))
  {
    var e := CheckTypes(b).value;
    assert e.location == f by {
      assert Rank(e.location) <= Rank(f);
      assert Rank(f) <= Rank(e.location);
    }
  }

  /** A `username` with surrounding whitespace is rejected before anything
      about `password` is looked at. */
  lemma UsernameWhitespaceRejected(b: Body)
    requires AllStrings(b)
    requires !Tight(Text(b, Username))
    ensures Validate(b) == Failure(ValidationError(SurroundingWhitespace, Username))
  {
    TrimFixedIffTight(Text(b, Username));
  }

  /** A tight `username` with a `password` that has surrounding whitespace is
      rejected at `password`. */
  lemma PasswordWhitespaceRejected(b: Body)
    requires AllStrings(b)
    requires Tight(Text(b, Username)) && !Tight(Text(b, Password))
    ensures Validate(b) == Failure(ValidationError(SurroundingWhitespace, Password))
  {
    TrimFixedIffTight(Text(b, Username));
    TrimFixedIffTight(Text(b, Password));
  }

  /** `name` is never rejected for whitespace: padding an accepted name with
      whitespace keeps the body accepted, and the padding survives
      validation (it is trimmed only when the user is created). */
  lemma NameWhitespaceAccepted(b: Body, pre: string, post: string)
    requires Acceptable(b)
    requires Blank(pre) && Blank(post)
    ensures var padded := pre + Text(b, Name) + post;
      var b' := b[Key(Name) := JsonString(padded)];
      Validate(b') == Success(SignupFields(Text(b, Username), Text(b, Password), padded))
  {
    var padded := pre + Text(b, Name) + post;
    var b' := b[Key(Name) := JsonString(padded)];
    TrimIgnoresPadding(pre, Text(b, Name), post);
    assert Text(b', Username) == Text(b, Username);
    assert Text(b', Password) == Text(b, Password);
    assert Text(b', Name) == padded;
    assert AllStrings(b');
    assert Acceptable(b');
    var r := Validate(b');
    assert r.Success?;
    assert r.value == SignupFields(Text(b', Username), Text(b', Password), Text(b', Name));
  }

  /** Once stages 1-3 pass, the first too-small field is reported, even when
      an earlier field is too large. */
  lemma TooSmallWins(b: Body, f: Field)
    requires AllStrings(b)
    requires Tight(Text(b, Username)) && Tight(Text(b, Password))
    requires TooSmall(Measure(b), f)
    requires forall g :: Rank(g) < Rank(f) ==> !TooSmall(Measure(b), g)
    ensures Validate(b) == Failure(ValidationError(AtLeastMessage(MinLength(f).value), f))
  {
    TrimFixedIffTight(Text(b, Username));
    TrimFixedIffTight(Text(b, Password));
    var e := CheckSizes(Measure(b)).value;
    assert e.location == f by {
      assert Rank(e.location) <= Rank(f);
    }
  }

  /** With nothing too small, the first too-large field is reported. */
  lemma TooLargeReported(b: Body, f: Field)
    requires AllStrings(b)
    requires Tight(Text(b, Username)) && Tight(Text(b, Password))
    requires forall g :: !TooSmall(Measure(b), g)
    requires TooLarge(Measure(b), f)
    requires forall g :: Rank(g) < Rank(f) ==> !TooLarge(Measure(b), g)
    ensures Validate(b) == Failure(ValidationError(AtMostMessage(MaxLength(f)), f))
  {
    TrimFixedIffTight(Text(b, Username));
    TrimFixedIffTight(Text(b, Password));
    var e := CheckSizes(Measure(b)).value;
    assert e.location == f by {
      assert TooLarge(Measure(b), e.location);
      assert Rank(e.location) >= Rank(f);
      assert Rank(f) >= Rank(e.location);
    }
  }

  /** Size bounds on `username`: with everything else acceptable, the body is
      accepted exactly when the username has 1 to 17 characters. */
  lemma UsernameBounds(b: Body)
    requires AllStrings(b)
    requires Tight(Text(b, Username)) && Tight(Text(b, Password))
    requires 5 <= |Text(b, Password)| <= 72 && |Trim(Text(b, Name))| <= 17
    ensures Validate(b).Success? <==> 1 <= |Text(b, Username)| <= 17
    ensures |Text(b, Username)| == 0 ==>
      Validate(b) == Failure(ValidationError(AtLeastMessage(1), Username))
    ensures |Text(b, Username)| == 18 ==>
      Validate(b) == Failure(ValidationError(AtMostMessage(17), Username))
  {
    TrimFixedIffTight(Text(b, Username));
    TrimFixedIffTight(Text(b, Password));
    if |Text(b, Username)| == 0 {
      TooSmallWins(b, Username);
    } else if |Text(b, Username)| == 18 {
      assert forall g :: !TooSmall(Measure(b), g) by {
        forall g ensures !TooSmall(Measure(b), g) {
          match g
          case Username =>
          case Password =>
          case Name =>
        }
      }
      TooLargeReported(b, Username);
    }
  }

  /** Size bounds on `password`: with everything else acceptable, the body is
      accepted exactly when the password has 5 to 72 characters. */
  lemma PasswordBounds(b: Body)
    requires AllStrings(b)
    requires Tight(Text(b, Username)) && Tight(Text(b, Password))
    requires 1 <= |Text(b, Username)| <= 17 && |Trim(Text(b, Name))| <= 17
    ensures Validate(b).Success? <==> 5 <= |Text(b, Password)| <= 72
    ensures |Text(b, Password)| == 4 ==>
      Validate(b) == Failure(ValidationError(AtLeastMessage(5), Password))
    ensures |Text(b, Password)| == 73 ==>
      Validate(b) == Failure(ValidationError(AtMostMessage(72), Password))
  {
    TrimFixedIffTight(Text(b, Username));
    TrimFixedIffTight(Text(b, Password));
    if |Text(b, Password)| == 4 {
      TooSmallWins(b, Password);
    } else if |Text(b, Password)| == 73 {
      assert forall g :: !TooSmall(Measure(b), g) by {
        forall g ensures !TooSmall(Measure(b), g) {
          match g
          case Username =>
          case Password =>
          case Name =>
        }
      }
      TooLargeReported(b, Password);
    }
  }

  /** The too-small message for `username` carries 1 in decimal. */
  lemma AtLeastOneMessage()
    ensures AtLeastMessage(1) == "Must be at least 1 characters long"
  {
    BoundDecimals();
    assert AtLeastMessage(1) == "Must be at least " + "1" + " characters long";
  }

  /** The too-small message for `password` carries 5 in decimal. */
  lemma AtLeastFiveMessage()
    ensures AtLeastMessage(5) == "Must be at least 5 characters long"
  {
    BoundDecimals();
    assert AtLeastMessage(5) == "Must be at least " + "5" + " characters long";
  }

  /** The too-large message for `username` and `name` carries 17 in decimal. */
  lemma AtMostSeventeenMessage()
    ensures AtMostMessage(17) == "Must be at most 17 characters long"
  {
    BoundDecimals();
    assert AtMostMessage(17) == "Must be at most " + "17" + " characters long";
  }

  /** The too-large message for `password` carries 72 in decimal. */
  lemma AtMostSeventyTwoMessage()
    ensures AtMostMessage(72) == "Must be at most 72 characters long"
  {
    BoundDecimals();
    assert AtMostMessage(72) == "Must be at most " + "72" + " characters long";
  }

  /** The decimal renderings of the four bounds. */
  lemma BoundDecimals()
    ensures Decimal(1) == "1" && Decimal(5) == "5"
    ensures Decimal(17) == "17" && Decimal(72) == "72"
  {
    assert Decimal(17) == Decimal(1) + [Digit(7)];
    assert Decimal(72) == Decimal(7) + [Digit(2)];
  }

  /** An 18-character username next to a 4-character password: the password
      is reported, not the earlier username. */
  lemma TooSmallBeatsEarlierTooLarge()
    ensures var b := map["username" := JsonString("abcdefghijklmnopqr"),
                         "password" := JsonString("abcd"),
                         "name" := JsonString("Al")];
      Validate(b) == Failure(ValidationError("Must be at least 5 characters long", Password))
  {
    var b := map["username" := JsonString("abcdefghijklmnopqr"),
                 "password" := JsonString("abcd"),
                 "name" := JsonString("Al")];
    assert Text(b, Username) == "abcdefghijklmnopqr";
    assert Text(b, Password) == "abcd";
    assert Tight("abcdefghijklmnopqr") && Tight("abcd");
    TrimFixedIffTight(Text(b, Password));
    assert Measure(b).password == 4;
    TooSmallWins(b, Password);
    AtLeastFiveMessage();
  }
}
