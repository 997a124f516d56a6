/** The login path of backend/api/api.py: validation of the request's email
    and password, the fail-fast parse that builds a `User` or one error
    dictionary, and `submit_login`, which stores the user and maps each
    outcome to an HTTP status. */
module Api {
  import opened Outcomes
  import Errors
  import DbInterface

  /** The JSON request body: a dictionary from keys to string values. */
  type Request = map<string, string>

  /** `request.get(key)`: the value, or `None` when the key is absent. */
  function Get(request: Request, key: string): (r: Option<string>)
    ensures r.Some? <==> key in request
    ensures r.Some? ==> r.value == request[key]
  {
    if key in request then Some(request[key]) else None
  }

  // ----- _validate_email: re.match(r"[^@]+@[^@]+\.[^@]+", email) -----

  /** One `[^@]+` run: non-empty and free of '@'. */
  predicate NonAtRun(t: string) {
    |t| >= 1 && '@' !in t
  }

  /** The pattern matches the prefix `s[..k]` with its '@' at `i` and its
      escaped '.' at `j`. */
  predicate PatternAt(s: string, i: nat, j: nat, k: nat)
    requires i < j < k <= |s|
  {
    NonAtRun(s[..i]) && s[i] == '@' && NonAtRun(s[i + 1..j]) && s[j] == '.' && NonAtRun(s[j + 1..k])
  }

  /** `re.match` anchors the pattern at the start of the string only: it
      succeeds exactly when some prefix of `s` matches. */
  ghost predicate MatchesEmailPattern(s: string)
    ensures MatchesEmailPattern(s) ==> 5 <= |s| && s[0] != '@' && '@' in s
  {
    exists i: nat, j: nat, k: nat :: i < j < k <= |s| && PatternAt(s, i, j, k)
  }

  /** The index of the first '@' at or after `from`, or `|s|` when there is none. */
  function NextAt(s: string, from: nat): (r: nat)
    requires from <= |s|
    ensures from <= r <= |s|
    ensures r < |s| ==> s[r] == '@'
    ensures forall t :: from <= t < r ==> s[t] != '@'
    decreases |s| - from
  {
    if from == |s| || s[from] == '@' then from else NextAt(s, from + 1)
  }

  /** Whether some index in `[lo, hi)` holds a '.'. */
  function HasDotIn(s: string, lo: nat, hi: nat): (b: bool)
    requires hi <= |s|
    ensures b <==> exists j :: lo <= j < hi && s[j] == '.'
    decreases hi - lo
  {
    if lo >= hi then false else s[lo] == '.' || HasDotIn(s, lo + 1, hi)
  }

  /** The pattern stated directly on the string: the first '@' is at index 1
      or later, and the maximal '@'-free run after it holds a '.' that is
      neither its first nor its last character; what follows that run does
      not matter. */
  predicate EmailShape(s: string) {
    var a := NextAt(s, 0);
    1 <= a < |s| && HasDotIn(s, a + 2, NextAt(s, a + 1) - 1)
  }

  /** The direct statement and the regular expression accept the same strings. */
  lemma EmailShapeIsPattern(s: string)
    ensures EmailShape(s) <==> MatchesEmailPattern(s)
  {
    var a := NextAt(s, 0);
    if EmailShape(s) {
      var e := NextAt(s, a + 1);
      var j :| a + 2 <= j < e - 1 && s[j] == '.';
      var local, middle, last := s[..a], s[a + 1..j], s[j + 1..e];
      assert '@' !in local by {
        forall t | 0 <= t < |local| ensures local[t] != '@' {}
      }
      assert '@' !in middle by {
        forall t | 0 <= t < |middle| ensures middle[t] == s[a + 1 + t] {}
      }
      assert '@' !in last by {
        forall t | 0 <= t < |last| ensures last[t] == s[j + 1 + t] {}
      }
      assert PatternAt(s, a, j, e);
    }
    if MatchesEmailPattern(s) {
      var i: nat, j: nat, k: nat :| i < j < k <= |s| && PatternAt(s, i, j, k);
      forall t | 0 <= t < i ensures s[t] != '@' {
        assert s[..i][t] == s[t];
      }
      assert a == i;
      forall t | i + 1 <= t < k ensures s[t] != '@' {
        if t < j {
          assert s[i + 1..j][t - (i + 1)] == s[t];
        } else if t > j {
          assert s[j + 1..k][t - (j + 1)] == s[t];
        }
      }
      var e := NextAt(s, i + 1);
      assert k <= e;
      assert HasDotIn(s, a + 2, e - 1);
    }
  }

  /** `_validate_email(email)`: false for `None`, otherwise whether the
      pattern matches at the start of the string. */
  function ValidateEmail(email: Option<string>): (valid: bool)
    ensures valid <==> email.Some? && MatchesEmailPattern(email.value)
  {
    if email.None? then false
    else
      EmailShapeIsPattern(email.value);
      EmailShape(email.value)
  }

  /** `_validate_password(password)`: a length test; `len(None)` raises `TypeError`. */
  function ValidatePassword(password: Option<string>): (r: Outcome<bool>)
    ensures r.Raised? <==> password.None?
    ensures r.Raised? ==> r.exc == TypeError
    ensures r.Returned? ==> (r.value <==> |password.value| >= 6)
  {
    if password.None? then Raised(TypeError) else Returned(|password.value| >= 6)
  }

  /** The `User` built from a valid request. `User.__init__` assigns the
      return value of `_hash_password`, which returns nothing, so the hash
      that `hashpw` computes is discarded and `hashed_password` is `None`. */
  datatype User = User(email: string, hashedPassword: Option<string>)

  /** `User(email, password)`. */
  function NewUser(email: string, password: string): (u: User)
    ensures u.email == email
    ensures u.hashedPassword.None?
  {
    User(email, None)
  }

  /** `(user, error_response)` as `_parse_and_validate_login` returns it. */
  type LoginParse = (Option<User>, Option<Errors.ErrorResponse>)

  /** `_parse_and_validate_login(request)`: both validators run first, then
      an invalid email is reported before an invalid password, and the first
      failure ends the parse. */
  function ParseAndValidateLogin(request: Request): (r: Outcome<LoginParse>)
    ensures r.Raised? <==> "password" !in request
    ensures r.Raised? ==> r.exc == TypeError
    ensures r.Returned? ==> (r.value.0.Some? <==> r.value.1.None?)
    ensures r.Returned? ==>
      (r.value.1.Some? <==> !ValidateEmail(Get(request, "email")) || |request["password"]| < 6)
    ensures r.Returned? && r.value.1.Some? ==>
      Errors.CreateResponse(r.value.1.value.errorCode) == Returned(r.value.1.value)
    ensures r.Returned? && !ValidateEmail(Get(request, "email")) ==>
      r.value.1.Some? && r.value.1.value.errorCode == Errors.EmailInvalidCode
    ensures r.Returned? && ValidateEmail(Get(request, "email")) && |request["password"]| < 6 ==>
      r.value.1.Some? && r.value.1.value.errorCode == Errors.PasswordInvalidCode
    ensures r.Returned? && r.value.0.Some? ==>
      "email" in request && r.value.0.value.email == request["email"]
      && MatchesEmailPattern(request["email"]) && |request["password"]| >= 6
      && r.value.0.value.hashedPassword.None?
  {
    var email := Get(request, "email");
    var password := Get(request, "password");
    var emailValid := ValidateEmail(email);
    match ValidatePassword(password)
    case Raised(e) => Raised(e)
    case Returned(passwordValid) =>
      if !emailValid then
        Returned((None, Some(Errors.ErrorResponse(false, Errors.EmailInvalidCode, Errors.EmailInvalidString))))
      else if !passwordValid then
        Returned((None, Some(Errors.ErrorResponse(false, Errors.PasswordInvalidCode, Errors.PasswordInvalidString))))
      else
        Returned((Some(NewUser(email.value, password.value)), None))
  }

  /** What `submit_login` hands to `jsonify`. */
  datatype Body =
    | ErrorObject(response: Errors.ErrorResponse)  // the parse's error dictionary
    | ErrorTuple(code: int, text: string)          // the tuple `save_login` returned
    | SuccessObject                                // `{'success': True}`

  /** `_create_success_response()`. */
  function CreateSuccessResponse(): (b: Body)
    ensures b.SuccessObject?
  {
    SuccessObject
  }

  /** What `submit_login` returns and the table it leaves, from the table it
      starts with. A `None` request raises at `request.get`. */
  function SubmitLoginSpec(request: Option<Request>, rows: seq<DbInterface.Record>, faults: DbInterface.Faults)
    : (r: (Outcome<(Body, int)>, seq<DbInterface.Record>))
    ensures r.1 == rows || (r.0.Returned? && r.0.value.1 == 200)
  {
    if request.None? then (Raised(AttributeError), rows)
    else
      match ParseAndValidateLogin(request.value)
      case Raised(e) => (Raised(e), rows)
      case Returned(parsed) =>
        if parsed.1.Some? then (Returned((ErrorObject(parsed.1.value), 400)), rows)
        else
          var user := parsed.0.value;
          var saved := DbInterface.SaveLoginSpec(rows, user.email, user.hashedPassword, faults);
          match saved.0
          case Raised(e) => (Raised(e), saved.1)
          case Returned(err) =>
            if err.Some? then (Returned((ErrorTuple(err.value.0, err.value.1), 500)), saved.1)
            else (Returned((CreateSuccessResponse(), 200)), saved.1)
  }

  /** `submit_login(request)`: parse, then save through `save_login`, then
      answer 400, 500 or 200. */
  method SubmitLogin(request: Option<Request>, db: DbInterface.Database, faults: DbInterface.Faults)
    returns (r: Outcome<(Body, int)>)
    modifies db
    ensures (r, db.rows) == SubmitLoginSpec(request, old(db.rows), faults)
  {
    if request.None? {
      return Raised(AttributeError);
    }
    var parsed := ParseAndValidateLogin(request.value);
    if parsed.Raised? {
      return Raised(parsed.exc);
    }
    var (user, errResponse) := parsed.value;
    if errResponse.Some? {
      return Returned((ErrorObject(errResponse.value), 400));
    }
    var saved := DbInterface.SaveLogin(db, user.value.email, user.value.hashedPassword, faults);
    if saved.Raised? {
      return Raised(saved.exc);
    }
    if saved.value.Some? {
      return Returned((ErrorTuple(saved.value.value.0, saved.value.value.1), 500));
    }
    var successResponse := CreateSuccessResponse();
    r := Returned((successResponse, 200));
  }

  /** Examples of the email rule: the address from the test suite without an
      '@' is refused, and so are an empty local part and a '.' at either end
      of the domain run. */
  lemma RejectedEmails()
    ensures !ValidateEmail(None)
    ensures !ValidateEmail(Some("test_test.com"))
    ensures !ValidateEmail(Some("@b.com"))
    ensures !ValidateEmail(Some("a@.com"))
    ensures !ValidateEmail(Some("a@b."))
  {
    EmailShapeIsPattern("test_test.com");
    assert NextAt("test_test.com", 0) == 13;
    EmailShapeIsPattern("@b.com");
    EmailShapeIsPattern("a@.com");
    assert NextAt("a@.com", 0) == 1;
    assert NextAt("a@.com", 2) == 6;
    EmailShapeIsPattern("a@b.");
    assert NextAt("a@b.", 0) == 1;
    assert NextAt("a@b.", 2) == 4;
  }

  /** Examples of accepted addresses: because nothing after the '@'-free run
      is checked, a second '@' later in the string is accepted too. */
  lemma AcceptedEmails()
    ensures ValidateEmail(Some("a@b.com"))
    ensures ValidateEmail(Some("a@b.c@d"))
  {
    assert PatternAt("a@b.com", 1, 3, 7);
    assert PatternAt("a@b.c@d", 1, 3, 5);
  }

  /** Examples of the password rule from the test suite. */
  lemma ValidatePasswordExamples()
    ensures ValidatePassword(Some("fivec")) == Returned(false)
    ensures ValidatePassword(Some("abcdef")) == Returned(true)
  {
  }

  /** The status code of `submit_login` says what happened: 400 exactly when
      the parse reported an error (and the table is unchanged), 200 exactly
      when the user's record was appended, 500 exactly when `save_login`
      returned an error tuple, which is then a catalogued one (and the table
      is unchanged). An
      exception also leaves the table unchanged. */
  lemma SubmitLoginStatus(request: Request, rows: seq<DbInterface.Record>, faults: DbInterface.Faults)
    requires "password" in request
    ensures var r := SubmitLoginSpec(Some(request), rows, faults);
            var parsed := ParseAndValidateLogin(request).value;
            && (r.0.Raised? ==> r.1 == rows && r.0.exc == DatabaseError)
            && (r.0.Returned? ==> r.0.value.1 in {200, 400, 500})
            && (r.0.Returned? && r.0.value.1 == 400 <==> parsed.1.Some?)
            && (r.0.Returned? && r.0.value.1 == 400 ==> r.1 == rows && r.0.value.0 == ErrorObject(parsed.1.value))
            && (r.0.Returned? && r.0.value.1 == 200 <==>
                  parsed.0.Some? && r.1 == rows + [DbInterface.Record(parsed.0.value.email, None)])
            && (r.0.Returned? && r.0.value.1 == 200 ==> r.0.value.0 == SuccessObject)
            && (r.0.Returned? && r.0.value.1 == 500 ==>
                  r.1 == rows && r.0.value.0.ErrorTuple?
                  && DbInterface.Catalogued((r.0.value.0.code, r.0.value.0.text)))
            && (r.0.Returned? && r.0.value.1 == 500 <==>
                  parsed.0.Some? &&
                  var saved := DbInterface.SaveLoginSpec(rows, parsed.0.value.email, None, faults).0;
                  saved.Returned? && saved.value.Some?)
  {
  }

  /** A `None` request raises `AttributeError` and a request without a
      password raises `TypeError`, whatever the email; neither touches the table. */
  lemma SubmitLoginCrashes(request: Request, rows: seq<DbInterface.Record>, faults: DbInterface.Faults)
    ensures SubmitLoginSpec(None, rows, faults) == (Raised(AttributeError), rows)
    ensures "password" !in request ==>
      SubmitLoginSpec(Some(request), rows, faults) == (Raised(TypeError), rows)
  {
  }

  /** Logging in with an email that is already stored is answered with the
      301 tuple and status 500, and the table is unchanged. */
  lemma SubmitLoginDuplicate(request: Request, rows: seq<DbInterface.Record>)
    requires "email" in request && "password" in request
    requires ValidateEmail(Some(request["email"])) && |request["password"]| >= 6
    requires DbInterface.HasEmail(rows, request["email"])
    ensures SubmitLoginSpec(Some(request), rows, DbInterface.NoFaults) ==
      (Returned((ErrorTuple(301, Errors.Catalog[301]), 500)), rows)
  {
  }

  /** A valid login on a table without that email answers `{'success': True}`
      with status 200 and stores the email with a `None` hash. */
  lemma SubmitLoginFresh(request: Request, rows: seq<DbInterface.Record>)
    requires "email" in request && "password" in request
    requires ValidateEmail(Some(request["email"])) && |request["password"]| >= 6
    requires !DbInterface.HasEmail(rows, request["email"])
    ensures SubmitLoginSpec(Some(request), rows, DbInterface.NoFaults) ==
      (Returned((SuccessObject, 200)), rows + [DbInterface.Record(request["email"], None)])
  {
  }
}
