# Login core of the volunteer_hub backend, in Dafny

This project models the login/registration path of the backend: the error
catalogue (`backend/api/errors.py`), request validation and the response
envelope of `submit_login` (`backend/api/api.py`), and the check-then-insert
store behind it (`backend/data_model/db_interface.py`).

- `outcomes.dfy` — module `Outcomes`: `Option` for Python's `None`, and
  `Outcome` (`Returned(value)` or `Raised(exc)`) for calls that raise.
- `errors.dfy` — module `Errors`: the catalogue as an immutable
  `map<int, string>` built by the same five assignments as `_error_dict`, and
  `create_response`, `get_error_string`, `log_error`, each raising
  `ValueError` on an unregistered code.
- `db_interface.dfy` — module `DbInterface`: a `Database` class holding the
  `User` table as a `seq<Record>` of (Email, PasswordHash), and a `Session`
  class that stages additions, queries (seeing committed and staged rows, as
  SQLAlchemy's autoflush does), commits and rolls back. `session_scope` is
  `Session.ExitScope`. Whether the query, the `session.add` or the commit fails
  is an explicit input (`Faults`). Each method is proved against a pure
  specification function (`SaveLoginInternalSpec`, `SaveLoginSpec`), and the
  lemmas about the store are stated on those functions.
- `api.dfy` — module `Api`: the email regular expression
  `[^@]+@[^@]+\.[^@]+` under `re.match` (anchored at the start only) as an
  existential predicate over the string (`MatchesEmailPattern`), an
  executable characterisation of it (`EmailShape`: the first '@' is at index
  1 or later, and the maximal '@'-free run after it holds a '.' that is
  neither its first nor its last character) and the lemma that the two agree;
  the password length test; the fail-fast parse; and `submit_login` as a
  method on the database, proved against `SubmitLoginSpec`.

Behaviour of the code that the model keeps as written, although a reader
might expect otherwise:

- The login parse is fail-fast: an invalid email is reported alone, even when
  the password is invalid too. It does not accumulate errors.
- `submit_login` answers 500 to every error tuple of `save_login`, including
  the 301 conflict; no code in these files answers a conflict with 200. The
  500 body is the `(code, string)` tuple itself, not an error dictionary.
- A `None` request raises `AttributeError` at `request.get`, and a missing
  password raises `TypeError` at `len`, because both validators run before
  either result is looked at (backend/api/api.py:36-37). Neither is turned
  into a 400 answer.
- `User.__init__` assigns the return value of `_hash_password`, which returns
  nothing, so the stored `PasswordHash` is always `None`.
- The email rule does not require exactly one '@': anything after the first
  '@'-free run is ignored, so `a@b.c@d` is accepted (`Api.AcceptedEmails`).

## Model

| member | source | states |
|---|---|---|
| `Errors.CatalogContents` | backend/api/errors.py:3-24 | `_error_dict` (the constant `Errors.Catalog`) registers exactly the codes 101, 102, 201, 202 and 301, each with its own fixed string, and no two codes share a string |
| `Errors.CatalogCategories` | backend/api/errors.py:5-22 | every registered code lies in a category: 101 and 102 validation, 201 and 202 storage failure, 301 conflict |
| `Errors.CreateResponse` | backend/api/errors.py:27-36 | raises `ValueError` exactly on an unregistered code; otherwise `success` is false, `error_code` is the code and `error_string` its catalogue string |
| `Errors.GetErrorString` | backend/api/errors.py:47-52 | raises `ValueError` exactly on an unregistered code; otherwise returns the code's catalogue string |
| `Errors.LogError` | backend/api/errors.py:39-44 | raises `ValueError` exactly on an unregistered code; otherwise logs the string `get_error_string` returns for it (the catalogue is immutable, so unchanged) |
| `Errors.CreateResponseAgreesWithGetErrorString` | backend/api/errors.py:27-52 | `create_response` and `get_error_string` fail on the same codes, and the response's string is the one `get_error_string` returns |
| `Api.Get` | backend/api/api.py:33-34 | `request.get(key)` is present exactly when the key is in the request, and then is its value |
| `Api.MatchesEmailPattern` | backend/api/api.py:56 | `re.match(r"[^@]+@[^@]+\.[^@]+", s)` succeeds exactly when some prefix splits into an '@'-free run, '@', an '@'-free run, '.', an '@'-free run; such a string has at least 5 characters, an '@', and no '@' first |
| `Api.NextAt` | backend/api/api.py:56 | the first '@' at or after a position, or the end of the string when there is none |
| `Api.HasDotIn` | backend/api/api.py:56 | true exactly when some index of the range holds a '.' |
| `Api.EmailShapeIsPattern` | backend/api/api.py:56 | the regular expression matches a prefix exactly when the first '@' is at index 1 or later and the '@'-free run after it holds a '.' that is neither its first nor its last character |
| `Api.ValidateEmail` | backend/api/api.py:55-58 | false for `None`; otherwise true exactly when `[^@]+@[^@]+\.[^@]+` matches at the start of the string |
| `Api.RejectedEmails` | backend/api/api.py:55-58 | `None`, `test_test.com`, `@b.com`, `a@.com` and `a@b.` are refused |
| `Api.AcceptedEmails` | backend/api/api.py:55-58 | `a@b.com` is accepted, and so is `a@b.c@d` with a second '@' |
| `Api.ValidatePassword` | backend/api/api.py:61-64 | a present password is valid exactly when its length is at least 6; `None` raises `TypeError` |
| `Api.ValidatePasswordExamples` | backend/api/api.py:61-64 | `fivec` is refused and `abcdef` accepted |
| `Api.NewUser` | backend/api/api.py:10-16 | the user carries the given email, and its hashed password is `None` because `__init__` stores the return value of `_hash_password` |
| `Api.ParseAndValidateLogin` | backend/api/api.py:32-52 | raises `TypeError` exactly when the password is absent; otherwise returns exactly one of a user and an error; an invalid email gives code 101 whatever the password, a valid email with a short password gives 102, an error is reported exactly when the email is invalid or the password shorter than 6, each error is the catalogue's response for its code, and a returned user has the request's email, which matches the pattern, a password of length at least 6, and a `None` hash |
| `Api.CreateSuccessResponse` | backend/api/api.py:67-68 | the success body `{'success': True}` |
| `Api.SubmitLoginSpec` | backend/api/api.py:19-29 | the table changes only on a 200 answer |
| `Api.SubmitLogin` | backend/api/api.py:19-29 | the answer and the new table are those of `SubmitLoginSpec` for the old table |
| `Api.SubmitLoginStatus` | backend/api/api.py:19-29 | 400 exactly on a parse error, with its error body and the table unchanged; 200 exactly when the user's record was appended, with the success body; 500 exactly when `save_login` returned an error tuple, which is catalogued, with the table unchanged; every answer is 200, 400 or 500; an exception (a failed commit) leaves the table unchanged |
| `Api.SubmitLoginCrashes` | backend/api/api.py:19-37 | a `None` request raises `AttributeError` and a request without a password raises `TypeError`, with the table unchanged |
| `Api.SubmitLoginDuplicate` | backend/api/api.py:24-26 | a valid login whose email is already stored gets the 301 tuple with status 500 and changes nothing |
| `Api.SubmitLoginFresh` | backend/api/api.py:19-29 | a valid login with a new email gets `{'success': True}` with 200 and appends one record with a `None` hash |
| `DbInterface.WithEmail` | backend/data_model/db_interface.py:53-54 | the query result holds only records of the table with that email, and every such record (how many times each appears is stated by `DbInterface.WithEmailCount`) |
| `DbInterface.WithEmailCount` | backend/data_model/db_interface.py:53-54 | the query result holds each record with that email exactly as many times as the table does, and no other record |
| `DbInterface.WithEmailNonEmpty` | backend/data_model/db_interface.py:59-65 | the query result is non-empty exactly when some record has the email |
| `DbInterface.WithEmailAppend` | backend/data_model/db_interface.py:42 | appending a record adds it to the query result for its own email and to no other |
| `DbInterface.Database.constructor` | backend/data_model/data_model.py:39-44 | a table with the given records |
| `DbInterface.Session.constructor` | backend/data_model/db_interface.py:14 | a session on the given database with nothing staged |
| `DbInterface.Session.QueryByEmail` | backend/data_model/db_interface.py:53-54 | raises exactly when the query fails; otherwise the records with the email among committed and staged ones |
| `DbInterface.Session.Add` | backend/data_model/db_interface.py:42 | stages exactly the one record, or raises and stages nothing |
| `DbInterface.Session.Commit` | backend/data_model/db_interface.py:17 | appends all staged records to the table and clears them, or raises and changes nothing |
| `DbInterface.Session.Rollback` | backend/data_model/db_interface.py:19 | discards the staged records |
| `DbInterface.Session.ExitScope` | backend/data_model/db_interface.py:11-22 | on normal exit the staged records are committed; if the body or the commit raises, the table is the pre-transaction one and the exception propagates |
| `DbInterface.UserAlreadyExists` | backend/data_model/db_interface.py:51-65 | `None` exactly when the query fails, a state distinct from false; otherwise true exactly when at least one visible record (one or several) has the email |
| `DbInterface.SaveLoginInternalSpec` | backend/data_model/db_interface.py:31-48 | exactly one of an error and a staged record: an error is a catalogued pair and stages nothing, success stages exactly the record (email, hash) |
| `DbInterface.SaveLoginInternal` | backend/data_model/db_interface.py:31-48 | returns and stages what `SaveLoginInternalSpec` gives for the rows the session sees |
| `DbInterface.SaveLoginSpec` | backend/data_model/db_interface.py:25-28 | all or nothing: the table is unchanged or has exactly the record (email, hash) appended, the latter exactly when the call returns `None`; error tuples are catalogued; an exception is the commit's |
| `DbInterface.SaveLogin` | backend/data_model/db_interface.py:25-28 | the result and the new table are those of `SaveLoginSpec` for the old table |
| `DbInterface.SaveLoginQueryFailure` | backend/data_model/db_interface.py:32-35 | a failed existence query returns code 202 with its string and inserts nothing |
| `DbInterface.SaveLoginConflict` | backend/data_model/db_interface.py:36-38 | an email already stored returns code 301 with its string and leaves the table unchanged |
| `DbInterface.SaveLoginAddFailure` | backend/data_model/db_interface.py:40-46 | a failing add returns code 201 with its string and leaves the table unchanged |
| `DbInterface.SaveLoginFresh` | backend/data_model/db_interface.py:40-48 | a fresh email appends exactly the record (email, hash), nothing else changes, the call returns `None`, and the table then holds exactly one record with that email, the appended one |
| `DbInterface.SaveLoginCommitFailure` | backend/data_model/db_interface.py:11-22 | a failing commit leaves the pre-transaction table and raises |
| `DbInterface.SaveLoginTwice` | backend/data_model/db_interface.py:36-38 | a second save of the same email returns 301 and changes nothing; from a table without that email exactly one record with it remains, the one the first call appended |

## Left out

- Flask's `jsonify` and the routing in `app.py`: the model returns the value handed to `jsonify` and the status code.
- `hashpw` (bcrypt) is not modelled: its result is discarded by `User.__init__`, so the stored hash is `None`. The call itself at backend/api/api.py:16 is assumed to return; an exception it could raise (for instance `ValueError` on a malformed salt from `secrets.py`, which is not part of this model) would escape `submit_login` and is not captured.
- Api.ParseAndValidateLogin: assumes the `hashpw` call inside `User(email, password)` returns, so a valid request always yields the user.
- Api.SubmitLoginFresh: assumes the `hashpw` call returns, so a valid login on a fresh email reaches `save_login` and answers 200.
- Logging calls are advisory side effects; `Errors.LogError` returns the logged line instead of writing it.
- Request values other than strings (numbers, lists, `None` values under a present key) are not modelled: the request is a `map<string, string>`.
- Strings are sequences of Dafny `char`s, which are Unicode scalar values, so `|s|` equals Python's `len(s)` for every string the model holds; Python strings containing lone surrogates cannot be expressed.
- The auto-assigned `Id` column and the SQLAlchemy engine, schema creation and table drop are not modelled.
- `session.close()` in `session_scope` has no effect on the table and is not modelled.
- Concurrent sessions: the store is sequential with one session at a time, so the race between two duplicate check-then-insert sequences is not captured.
- Registration, organisation requests, name, phone and organisation validators, `REQUEST_INVALID` and error accumulation have no code behind them in the modelled files and are not modelled.
