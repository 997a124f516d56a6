/** The error catalogue of backend/api/errors.py: a fixed map from integer
    codes to human-readable strings, and the three lookups built on it. */
module Errors {
  import opened Outcomes

  const EmailInvalidCode := 101
  const EmailInvalidString := "Email invalid"
  const PasswordInvalidCode := 102
  const PasswordInvalidString := "Password invalid"

  const FailedToCommitUserCode := 201
  const FailedToCommitUserString := "Failed to commit user to database"
  const FailedToQueryForUserCode := 202
  const FailedToQueryForUserString := "Failed to query database for user"

  const UserWithEmailAlreadyExistsCode := 301
  const UserWithEmailAlreadyExistsString := "User with that email already exists"

  /** `_error_dict`: filled by five successive assignments when the module is
      imported and never written afterwards, so an immutable map. */
  const Catalog: map<int, string> :=
    map[]
      [EmailInvalidCode := EmailInvalidString]
      [PasswordInvalidCode := PasswordInvalidString]
      [FailedToCommitUserCode := FailedToCommitUserString]
      [FailedToQueryForUserCode := FailedToQueryForUserString]
      [UserWithEmailAlreadyExistsCode := UserWithEmailAlreadyExistsString]

  /** The error dictionary `{'success': False, 'error_code': c, 'error_string': s}`. */
  datatype ErrorResponse = ErrorResponse(success: bool, errorCode: int, errorString: string)

  /** The three kinds of failure the code numbering distinguishes. */
  datatype Category = Validation | StorageFailure | Conflict

  /** The category a code belongs to by its hundreds digit, if any. */
  function CategoryOf(code: int): Option<Category> {
    if 100 <= code < 200 then Some(Validation)
    else if 200 <= code < 300 then Some(StorageFailure)
    else if 300 <= code < 400 then Some(Conflict)
    else None
  }

  /** `create_response(code)`: an error dictionary for a registered code, or
      `ValueError` (and no dictionary) for any other. */
  function CreateResponse(code: int): (r: Outcome<ErrorResponse>)
    ensures r.Raised? <==> code !in Catalog
    ensures r.Raised? ==> r.exc == ValueError
    ensures r.Returned? ==>
      !r.value.success && r.value.errorCode == code && r.value.errorString == Catalog[code]
  {
    if code !in Catalog then Raised(ValueError)
    else Returned(ErrorResponse(false, code, Catalog[code]))
  }

  /** `get_error_string(code)`: the registered string, or `ValueError`. */
  function GetErrorString(code: int): (r: Outcome<string>)
    ensures r.Raised? <==> code !in Catalog
    ensures r.Raised? ==> r.exc == ValueError
    ensures r.Returned? ==> r.value == Catalog[code]
  {
    if code !in Catalog then Raised(ValueError) else Returned(Catalog[code])
  }

  /** `log_error(code)`: raises `ValueError` for an unregistered code;
      otherwise returns nothing and writes one line to the log. The model
      returns that line, so that its content can be stated. */
  function LogError(code: int): (r: Outcome<string>)
    ensures r.Raised? <==> code !in Catalog
    ensures r.Raised? ==> r.exc == ValueError
    ensures r.Returned? ==> GetErrorString(code) == Returned(r.value)
  {
    if code !in Catalog then Raised(ValueError)
    else GetErrorString(code)
  }

  /** The catalogue registers exactly five codes, each with its own string. */
  lemma CatalogContents()
    ensures Catalog.Keys == {101, 102, 201, 202, 301}
    ensures Catalog[101] == "Email invalid"
    ensures Catalog[102] == "Password invalid"
    ensures Catalog[201] == "Failed to commit user to database"
    ensures Catalog[202] == "Failed to query database for user"
    ensures Catalog[301] == "User with that email already exists"
    ensures forall c, d :: c in Catalog && d in Catalog && c != d ==> Catalog[c] != Catalog[d]
  {
  }

  /** Codes are grouped by category: 1xx validation, 2xx storage, 3xx conflict. */
  lemma CatalogCategories()
    ensures forall c :: c in Catalog ==> CategoryOf(c).Some?
    ensures CategoryOf(EmailInvalidCode) == Some(Validation)
    ensures CategoryOf(PasswordInvalidCode) == Some(Validation)
    ensures CategoryOf(FailedToCommitUserCode) == Some(StorageFailure)
    ensures CategoryOf(FailedToQueryForUserCode) == Some(StorageFailure)
    ensures CategoryOf(UserWithEmailAlreadyExistsCode) == Some(Conflict)
  {
  }

  /** The dictionary's string is the one `get_error_string` gives for the same
      code, and both fail on exactly the same codes. */
  lemma CreateResponseAgreesWithGetErrorString(code: int)
    ensures CreateResponse(code).Raised? <==> GetErrorString(code).Raised?
    ensures CreateResponse(code).Returned? ==>
      GetErrorString(code) == Returned(CreateResponse(code).value.errorString)
  {
  }
}
