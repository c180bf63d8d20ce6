# Daily diet API — a Dafny model of the meal-tracking core

This project models the request handlers of the daily diet API (`app.py`)
and the meal table they work on (`models/meal.py`). A user registers,
logs in and then records meals. A meal is a name, a description, a
date-time and a flag saying whether it fits the diet. A user can list,
read, update and delete their own meals, and a user whose role is not
`"user"` can do so for anyone's.

The model is in six modules:

- `Wrappers` and `NatSets` (`util.dfy`): an `Option` type. The least element of a
  set of ids, and the existence of an id not yet used.
- `Digits` (`digits.dfy`): fixed-width and unpadded decimal digit strings.
- `DateTimes` (`datetimes.dfy`): Python's `datetime` values, and a small
  interpreter for the three formats the handlers use with
  `datetime.strptime` and `strftime` (`%Y-%m-%d %H:%M:%S`, `%Y-%m-%d`,
  `%H:%M:%S`).
- `UserTable` and `MealTable` (`meal.dfy`): the rows of the two tables and
  the table constraints.
- `MealRules` (`rules.dfy`): the pure decisions inside the handlers:
  - Python truthiness of request fields;
  - the owner/role permission test;
  - the partial update of a meal;
  - the read view of a meal;
  - what a correct meal list is.
- `MealApi` (`api.dfy`): a `Store` class that holds the user table, the meal
  table and the session's bound user. It has one method per route, and each
  method answers with the route's status code (200, 201, 400, 403, 404).

Every handler changes the tables only on its success path, which is where
`app.py` commits. `Store.Valid()` is the invariant that every handler
keeps. It says:

- the tables are keyed by their primary keys;
- every meal's owner exists;
- every stored date-time is a real date-time;
- every stored meal has a non-empty name and description;
- the session, if any, names an existing user.

In these places the model follows what `app.py` does:

- The permission test refuses exactly when the caller is not the owner and
  the caller's role is the string `"user"`. Any other role string is
  privileged, not only `"admin"`.
- Registration never checks whether a username is taken, so there is no
  Conflict outcome.
- Routes that need a session redirect to the login view rather than answer
  401. The model therefore takes the signed-in caller as a precondition
  (`SignedIn`).
- An update that carries only `"diet": false` passes the "no data" test but
  changes nothing, because the handler assigns `diet` only when it is
  truthy. Likewise an update can set `diet` to true but never to false.

## Model

| member | source | states |
|---|---|---|
| MealApi.Store.RegisterUser | app.py:23-36 | 201 exactly when username and password are both truthy. Then one new user is added under an unused id, with the hashed password and role "user", and nothing else changes. Otherwise 400 and nothing changes. The store invariant is kept. |
| MealApi.Store.Login | app.py:38-51 | 200 exactly when both fields are truthy, a user with that name exists, and the password checks against the digest of the first such user (least id). The session is then bound to that user. Otherwise 400 and the session is unchanged. The tables are never changed. |
| MealApi.Store.Logout | app.py:53-57 | Clears the session, answers 200, and leaves both tables unchanged. |
| MealApi.Store.RegisterMeal | app.py:59-88 | 201 exactly when name, description, date and time are non-empty, diet is not null (it may be false), and date + " " + time parses with `%Y-%m-%d %H:%M:%S`. Then exactly one meal is added, under an id not in the table, owned by the caller and holding the parsed date-time. Otherwise 400 and nothing changes. |
| MealApi.Store.UpdateMeal | app.py:90-139 | Answers 404 if the meal is missing, else 403 if the caller is denied, else 400 if no field is given or a given date or time fails to parse, else 200. Each status is stated as an if-and-only-if. On 200 the meal becomes `MergeUpdate` of the old row. On every other status the store is unchanged. |
| MealApi.AssignFields | app.py:110-135 | The handler's step-by-step field assignments produce exactly `MergeUpdate(meal, body)`. |
| MealApi.Store.DeleteMeal | app.py:141-155 | 404 if the meal is missing, else 403 if the caller is denied, else 200 with exactly that meal removed. The store is unchanged on 404 and 403. |
| MealApi.Store.GetMeals | app.py:157-177 | 404 if the user is missing, else 403 if the caller is denied, else 200 with a list satisfying `IsListing`: the views of exactly that user's meals, in ascending id order, each with its date-time formatted. |
| MealApi.Store.GetMeal | app.py:179-197 | 404 if the meal is missing, else 403 if the caller is denied, else 200 with the meal's view (its date-time formatted). |
| MealApi.DeleteThenGet | app.py:141-155 | After a permitted delete, reading the same meal answers 404. |
| MealApi.CreateThenGet | app.py:59-88 | A meal created and then read back by its creator shows the submitted name, description and diet, and exactly date + " " + time as its date-time (years from 1000 on). |
| MealRules.Truthy | app.py:29 | Python truthiness of a string field: present, not null and not empty. The same test is used at app.py:44, 69, 107 and 110-134. |
| MealRules.CanCreate | app.py:69-75 | The create handler passes both of its checks: `HasCreateData` holds and date + " " + time parses with `%Y-%m-%d %H:%M:%S`. |
| MealRules.Denied | app.py:104 | The permission test of the update, delete and both read handlers (also app.py:149, 164, 186): refused exactly when the caller does not own the resource and the caller's role is the string "user". The ensures state that an owner is never refused and that any other role is never refused. |
| MealRules.HasCreateData | app.py:69 | The create handler's required-data test: name, description, date and time are truthy and diet is not null (false is allowed). The ensures states that every body the create test accepts also passes the update handler's no-data test. |
| MealRules.HasUpdateData | app.py:107 | The update handler's no-data test, negated: at least one of name, description, date or time is truthy, or diet is not null. |
| MealRules.View | app.py:169-175 | The dictionary both read handlers build for a meal (also app.py:189-196): id, name, description, the date-time formatted with `%Y-%m-%d %H:%M:%S`, and diet. What a view of a created meal shows is proved by `CreatedMealReadsBack`. |
| MealRules.MergeUpdate | app.py:110-135 | An update fails exactly when a truthy date does not parse or a truthy time does not parse. Otherwise it keeps the meal's id and owner, and keeps a stored meal complete. |
| MealRules.DateOnlyUpdateKeepsTime | app.py:114-121 | A date-only update takes year, month and day from the parsed date and keeps the meal's time of day. |
| MealRules.TimeOnlyUpdateKeepsDate | app.py:124-131 | A time-only update takes hour, minute and second from the parsed time and keeps the meal's date. |
| MealRules.DateAndTimeUpdateMatchesCreate | app.py:114-131 | In this model, with its strict parse (see "## Left out"), updating both date and time succeeds exactly when creating from the same two strings would, and stores the same date-time. |
| MealRules.DietFalseOnlyChangesNothing | app.py:107-108 | A body holding only `"diet": false` counts as data to update, yet leaves the meal unchanged. |
| MealRules.UpdateNeverClearsDiet | app.py:134-135 | After an update the diet flag is the old flag or'ed with "the body sent true". |
| MealRules.NewMeal | app.py:77-83 | The created row has the given id and the caller as owner, is complete, and holds a valid date-time. |
| MealRules.CreatedMealReadsBack | app.py:189-196 | The view of a created meal shows the submitted strings, its date-time rendering back to date + " " + time (years from 1000 on). |
| MealRules.ListingStep | app.py:167-175 | Appending the view of the least remaining meal keeps the partial-listing invariant of the loop. |
| MealRules.ListingUnique | app.py:167-175 | Two lists that both satisfy `IsListing` for the same user and store are equal, so the listing is determined by the store. |
| MealRules.StoreMealKeepsInvariant | models/meal.py:3-10 | Storing a complete meal under its own id, with an existing owner, keeps the table constraints. |
| MealRules.RemoveMealKeepsInvariant | models/meal.py:3-10 | Deleting a meal keeps the table constraints. |
| MealTable.WellFormed | models/meal.py:3-10 | The meal table's constraints: each row is stored under its own primary key, its date-time column holds a real date-time, and `id_user` is a foreign key into the user table. |
| MealApi.Authenticates | app.py:44-47 | Login succeeds: both fields are truthy, a user with that username exists, and `checkpw` accepts the password against the digest of the first such user. `Store.Login` answers 200 exactly when this holds. |
| UserTable.FirstByUsername | app.py:45 | Finds a user exactly when one with that name exists. The user found has that name, and no user with that name has a smaller id. |
| DateTimes.Strptime | app.py:73 | Every date-time a parse accepts is valid: a year from 1 to 9999, a month from 1 to 12, a day within the month, and a time within the day. |
| DateTimes.ParseDateTime | app.py:73 | The create handler's parse of date + " " + time with `%Y-%m-%d %H:%M:%S`. Every date-time it accepts is valid. |
| DateTimes.FormatDateTime | app.py:173 | The `strftime("%Y-%m-%d %H:%M:%S")` of both read handlers (also app.py:194). Its meaning is proved by `FormatThenParse` and `ParseThenFormat`. |
| DateTimes.ReplaceDate | app.py:117-121 | `dt.replace(year=, month=, day=)`: the date of the second argument with the time of day of the first. `ReplacePreservesValid` proves the result valid. |
| DateTimes.ReplaceTime | app.py:127-131 | `dt.replace(hour=, minute=, second=)`: the time of day of the second argument with the date of the first. `ReplacePreservesValid` proves the result valid. |
| DateTimes.Valid | app.py:73 | The values Python's `datetime` accepts: a year from 1 to 9999, a month from 1 to 12, a day within that month, an hour up to 23, and a minute and second up to 59. |
| DateTimes.DaysInMonth | app.py:73 | A month has 28 to 31 days, and 29 exactly for February of a leap year. |
| DateTimes.ParseDate | app.py:116 | A parsed date is valid and its time of day is midnight. |
| DateTimes.ParseTime | app.py:126 | A parsed time is valid and its date is 1900-01-01. |
| DateTimes.FormatThenParse | app.py:173 | Parsing the `%Y-%m-%d %H:%M:%S` rendering of a valid date-time (year 1000 or later) gives the same date-time back. |
| DateTimes.ParseThenFormat | app.py:194 | A string the create handler accepts, with a year from 1000 on, is exactly its own `%Y-%m-%d %H:%M:%S` rendering. |
| DateTimes.ParseDateTimeSplits | app.py:73 | In this model, with its strict parse (see "## Left out"), parsing date + " " + time succeeds exactly when the date-only and time-only parses both succeed. It then gives the parsed date with the parsed time of day. |
| DateTimes.ScanSpaced | app.py:73 | date + " " + time can match the combined format only when date is ten characters long. The match is then the date's fields and the time's fields together. |
| DateTimes.ReplacePreservesValid | app.py:117-131 | Replacing the date part or the time part of a valid date-time with those of another valid date-time gives a valid date-time, so the handler's `replace` cannot fail. |
| DateTimes.ScanAppend | app.py:73 | Scanning against two formats in sequence is scanning the first format's width against the first format and the rest against the second. |
| DateTimes.ScanCanonical | app.py:173 | An accepted input with no repeated field and a four-digit year is the rendering of any date-time that agrees with the fields found. |
| DateTimes.ScanRendered | app.py:173 | Scanning a rendering against its own format finds exactly the fields of the date-time it rendered. |
| Digits.ValueOfFixed | app.py:173 | Reading back a zero-padded field gives the number written, when it fits the width. |
| Digits.FixedOfValue | app.py:73 | A digit string is the zero-padded rendering of its own value at its own width. |

## Left out

- Flask routing, JSON decoding and the response messages are not modelled. The status code stands for the response, and the meal list is returned as a sequence of views rather than the single string `f"{meal_list}"` that `get_meals` returns.
- Request fields that are present but are neither a string nor a bool (numbers, lists, objects in the JSON body) are not modelled. A field is either absent/null or a string (a bool for `diet`).
- flask_login's session cookie and the redirect to the login view for a request without a session are not modelled. The signed-in caller is a precondition of the session-gated handlers.
- bcrypt is not modelled: `hashpw` and `checkpw` are parameters of `RegisterUser` and `Login`, and the random salt is a parameter.
- SQLAlchemy transactions are not modelled. A handler's changes are applied at once on its success path, and a failed update leaves the store as it was, as the uncommitted session would.
- Primary keys are chosen as any id not in use; SQLite's choice of rowid is not modelled.
- Row order is not modelled from the database. `.first()` on the username filter is taken to return the least id, and `user.meal` is taken to list meals in ascending id order.
- The declared length 80 of the meal name column is not enforced, as SQLite does not enforce it; `MealTable.NameLength` records it.
- Python's `strptime` leniencies are not modelled: one-digit fields, runs of whitespace and non-ASCII digits are rejected. Every field must have its full width: four digits for `%Y` and two for the rest.
- MealRules.DateAndTimeUpdateMatchesCreate: the agreement between create and update holds only for inputs without extra whitespace. In `app.py` the space of `%Y-%m-%d %H:%M:%S` matches any run of whitespace, so create accepts a whitespace-padded pair such as date `"2024-01-05"` with time `" 08:30:00"`. Update rejects the same pair with 400, because `" 08:30:00"` does not match `%H:%M:%S` alone (app.py:126, 132-133). Likewise a date ending in whitespace leaves unconverted data for `%Y-%m-%d` (app.py:116, 122-123). The model's strict parse rejects both in create as well, so this difference is not captured.
- DateTimes.ParseDateTimeSplits: holds only for inputs without extra whitespace, for the same reason. `app.py`'s create parse accepts whitespace-padded pairs that the separate date and time parses of update reject with 400.
- DateTimes.FormatThenParse: stated for years from 1000 on only. The model assumes an interpreter that hands `%Y` to the C library's `strftime` unchanged, as CPython does on Linux with glibc, so a smaller year is printed without zero padding and the strict four-digit parse then rejects it. An interpreter that pads `%Y` to four digits itself is not modelled; under it the round trips would hold for every year.
- DateTimes.ParseThenFormat: stated for years from 1000 on only, for the same reason.
- MealRules.CreatedMealReadsBack: stated for years from 1000 on only, for the same reason.
- MealApi.CreateThenGet: stated for years from 1000 on only, for the same reason.
- Microseconds and time zones are not modelled; the handlers never produce them.
- Concurrent requests are not modelled.
- The user table's own class (`models/user.py`) is not part of this model; the user row has the columns `app.py` uses.
