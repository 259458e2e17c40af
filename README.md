# Rating of titles: a Dafny model of the data layer

This project models the data layer of a small REST service. In the service,
users register, log in, and keep a list of media titles with a name, type,
status and an optional rating. The model covers the SQLAlchemy models in
`models.py` and the marshmallow schemas in `schemas.py`:

- `wrappers.dfy` (module `Wrappers`): `Option` for nullable values and `Result` for raised errors.
- `titles.dfy` (module `Titles`) holds the pure side of the `titles` table.
  - A `Title` row and the column constraints a commit enforces (`Fits`, `FromRow`).
  - The keyword arguments of `update` (`Lookup`, `Apply`).
  - The three queries: `Get`, `UsersTitles` and the group-by average `TitleList`.
- `title_store.dfy` (module `TitleStore`): class `TitleTable` has the rows as a `seq<Title>` field.
  - `Save`, `Update` and `Delete` are methods with `modifies this`.
  - Each one commits with the stated effect, or fails and leaves the table as it was (rollback).
- `users.dfy` (module `Users`) covers the `users` table.
  - The `User` constructor, which keeps only `hash(password)`.
  - Class `UserTable`, whose `Add` inserts a row under the unique-email constraint.
  - `Authenticate`, which needs exactly one user with the name and a password that verifies.
- `schemas.dfy` (module `Schemas`): the three schemas as lists of field descriptors.
  - `Load` validates input, and its contract ties it to `Accepts`, the declarative reading of the field declarations.
  - `Dump` serializes output.

The database session is not modelled as such. A table is the class's
`rows` field, and "commit or roll back and re-raise" becomes a method that
returns `Ok(..)` with the new state or `Err(..)` with the old state.
bcrypt's `hash` and `verify` are function-valued parameters. Facts about a
successful login assume only `verify(p, hash(p))` for the password involved.
`authenticate` raises when two users share a username, because `.one()`
(models.py:125) refuses a second matching row.

## Model

| member | source | states |
|---|---|---|
| Titles.ColumnDeclarations | models.py:28-34 | NULL fits only the nullable `rating`; an int fits only the Integer columns `id`, `rating` and `user_id`; a str fits only the four String columns |
| Titles.Violation | models.py:26-34 | the error for a refused value names the column, and is the NOT NULL error exactly when the value is NULL |
| Titles.ToRow | models.py:26-34 | every column of a committed row holds a value its declaration allows; the `id` and `user_id` columns hold the row's key and owner |
| Titles.FromRow | models.py:26-34 | commit succeeds iff every column holds a value its declaration allows; the committed row then holds exactly those values; otherwise the error names a refused column |
| Titles.RowRoundTrip | models.py:26-34 | committing the column values of a row gives back that row |
| Titles.Lookup | models.py:82-83 | the value given for a column is absent iff no keyword names it, and otherwise is one of the supplied pairs |
| Titles.Apply | models.py:80-83 | after the `setattr` loop each supplied column holds its (last) supplied value and every other column is unchanged |
| Titles.Get | models.py:58-70 | succeeds iff some row has both the id and the owner; the result is such a row; otherwise the error is "No title with this id" |
| Titles.ForeignTitleLooksMissing | models.py:58-70 | a title owned by another user fails with the same error as an id that does not exist |
| Titles.GetFindsTheRow | models.py:58-70 | with a unique primary key, looking a row up by its own id and owner returns that row |
| Titles.UsersTitles | models.py:46-56 | a row is listed iff its `user_id` and `user_name` both match, so a row with the right id and a stale name is excluded |
| Titles.UsersTitlesOne | models.py:49-51 | a single row is listed once when both its owner columns match, and not at all otherwise |
| Titles.UsersTitlesAppend | models.py:49-51 | the listing of a concatenation is the listings of its parts in order, so each matching row is listed exactly once |
| Titles.Replace | models.py:80-87 | after an update the table keeps every other row at its position, holds the new row exactly when the old key was present, and keeps the key unique when the new key is the old one or unused |
| Titles.ReplaceKeepsKeyUnique | models.py:80-87 | an update to its own or an unused id keeps the key unique, and the updated row is then what `get` finds |
| Titles.Without | models.py:89-95 | removing a row keeps exactly the other rows and the key's uniqueness, and shrinks the table by one when the key was present |
| Titles.DistinctNames | models.py:39 | the group keys are pairwise distinct and are exactly the title names in the table |
| Titles.Ratings | models.py:30 | a group's averaged values are exactly its non-NULL ratings |
| Titles.RatingsOne | models.py:30-39 | one row contributes its rating to its own name's group when rated, and nothing otherwise |
| Titles.RatingsAppend | models.py:39 | the non-NULL ratings of a concatenation of rows are those of the parts, so each rating is averaged once per row carrying it |
| Titles.Mean | models.py:39 | AVG is NULL exactly on an empty set of values, and otherwise times the count gives the sum |
| Titles.FirstNamed | models.py:39 | the `title_type` reported for a group comes from a row of that group |
| Titles.TitleList | models.py:36-44 | exactly one entry per distinct title name; its average is the mean of that name's non-NULL ratings; its type is that of one of its rows |
| Titles.SingleNameList | models.py:39 | a table with a single title name yields a single group |
| Titles.NullRatingIgnored | models.py:30-39 | adding a row with a NULL rating changes no group's average |
| Titles.SumBounds | models.py:39 | ratings between lo and hi sum to between lo·n and hi·n |
| Titles.MeanWithinBounds | models.py:39 | an average lies between the least and the greatest rating it is taken over |
| Titles.ExampleGroups | models.py:36-44 | for ratings 4, 6 and NULL under "X" there is one group, whose non-NULL ratings are 4 and 6 |
| Titles.AverageExample | models.py:36-44 | for ratings 4, 6 and NULL under one name the list is that name with average 5.0 |
| TitleStore.TitleTable.Save | models.py:72-78 | on success the new row is appended and existing rows are untouched; it holds the supplied values, with the next sequence id when none was given; `get` and the owner's listing find it. It succeeds iff every column fits and the key is unused. On failure the table and the sequence are unchanged |
| TitleStore.TitleTable.CommitNew | models.py:74-78 | committing a pending new object appends exactly the row its attributes describe, iff they fit the columns and the key is unused; otherwise nothing changes |
| TitleStore.TitleTable.Update | models.py:80-87 | on success the row holds exactly the supplied values in supplied columns and its old values elsewhere. Every other row is unchanged and `get` finds the new row. It succeeds iff the updated row fits the columns and its key is its own or unused. On failure the table is unchanged |
| TitleStore.TitleTable.CommitUpdate | models.py:84-87 | committing a modified row replaces it in place by the row its attributes describe, iff they fit the columns and the key is its own or unused; otherwise nothing changes |
| TitleStore.TitleTable.Delete | models.py:89-95 | exactly that row is removed, every other row stays, and afterwards `get` with its id fails for every user |
| Users.Construct | models.py:114-117 | the new user copies username and email and stores `hash(password)`; with no password the constructor raises |
| Users.Named | models.py:125 | the username filter yields exactly the users with that name |
| Users.NamedOne | models.py:125 | the filter over one row yields that row when it carries the name, and nothing otherwise |
| Users.NamedAppend | models.py:125 | the username filter distributes over a concatenation of rows |
| Users.NamedNone | models.py:125 | when no user has the name, the filter yields nothing |
| Users.NamedSingle | models.py:125 | the filter yields a single user exactly when one row, and no other, carries the name |
| Users.Authenticate | models.py:123-128 | succeeds iff exactly one user has the name and the password verifies against its hash; the result is that user; with one match the only failure is the wrong-password error |
| Users.LoginAfterRegister | models.py:114-128 | a user whose name is new logs in with a password that verifies against the stored hash |
| Users.RegisterThenLogin | models.py:114-128 | a user built by the constructor under a new name logs in with its password, assuming only that `verify` accepts a password against its own hash |
| Users.SharedNameCannotLogIn | models.py:125 | when two users share a username, `.one()` fails for that name whatever the password |
| Users.UserTable.Add | models.py:105-110 | insertion succeeds iff username and email are non-NULL and the email is unused; then the row is appended with the next id; otherwise nothing changes, and a duplicate email is reported as such; email stays unique |
| Schemas.Declared | schemas.py:4-25 | a name's declaration is found exactly when some field carries the name, and is then a field of the schema with that name |
| Schemas.DeclaredUnique | schemas.py:4-25 | when names are unique, looking up a field's name finds that very field |
| Schemas.UserNamesUnique | schemas.py:4-9 | UserSchema declares each field name once |
| Schemas.TitleNamesUnique | schemas.py:12-20 | TitleSchema declares each field name once |
| Schemas.AuthNamesUnique | schemas.py:23-25 | AuthSchema declares each field name once |
| Schemas.Check | schemas.py:4-25 | a field's deserializer and validators report nothing iff the value conforms to the declaration; None is always refused |
| Schemas.Errors | schemas.py:4-25 | the collected errors are empty iff the declarations accept the document, and each names an input key or a declared field |
| Schemas.Load | schemas.py:4-25 | load succeeds exactly when every key is loadable, every required loadable field is present and every present field conforms; it then returns the input; otherwise it reports all errors |
| Schemas.Dump | schemas.py:4-25 | every output key is a declared, non-load-only field carrying the object's value; with unique names, every such field the object has is output |
| Schemas.DumpKey | schemas.py:4-25 | a key is dumped iff the object has it and its declaration is not load-only |
| Schemas.DumpAfterLoad | schemas.py:4-25 | dumping a loaded document drops exactly the load-only keys |
| Schemas.LoadedField | schemas.py:4-25 | a required loadable field of a loaded document is present and conforms |
| Schemas.LoadedKey | schemas.py:4-25 | every key of a loaded document is a loadable field |
| Schemas.LoadedKeysOnly | schemas.py:4-25 | a loaded document has none of the keys the schema does not load |
| Schemas.UnloadableKeyRefused | schemas.py:4-25 | input carrying an undeclared or dump-only key is refused |
| Schemas.UserLoadRequiresFields | schemas.py:6-9 | a loaded user has `username`, `email` and `role` as strings of at most 250 characters and `password` as a string of at most 100 |
| Schemas.UserLoadAcceptsFields | schemas.py:6-9 | any four strings within those bounds, and nothing else, load |
| Schemas.UserInputKey | schemas.py:6-9 | `username`, `email`, `password` and `role` are loadable |
| Schemas.UserFieldCases | schemas.py:5-9 | in UserSchema only `password` is load-only and only `id` is dump-only |
| Schemas.UserLoadNeverTakesId | schemas.py:5 | input carrying `id` is refused, so `id` is never taken from input |
| Schemas.PasswordNeverDumped | schemas.py:8 | `password` never appears in dumped output |
| Schemas.UserDumpAfterLoad | schemas.py:4-9 | dumping a loaded user gives it back without the password |
| Schemas.TitleFieldCases | schemas.py:12-20 | TitleSchema has no load-only field and exactly `id`, `user_id` and `message` are dump-only |
| Schemas.TitleLoadRequiresFields | schemas.py:15-19 | a loaded title has `title_name`, `title_type` and `title_status` as strings of at most 250 characters and an integer `rating` |
| Schemas.TitleOutputOnly | schemas.py:13-20 | `id`, `user_id` and `message` are not loadable |
| Schemas.TitleMessageDeclared | schemas.py:20 | `message` is declared in TitleSchema |
| Schemas.TitleLoadNeverTakesOutputFields | schemas.py:13-20 | a loaded title carries none of `id`, `user_id` and `message` |
| Schemas.TitleDumpAfterLoad | schemas.py:12-20 | a loaded title dumps back unchanged |
| Schemas.AuthDumpKeys | schemas.py:23-25 | the token response holds no key other than `access_token` and `message` |
| Schemas.AuthLoadOnlyEmpty | schemas.py:23-25 | both AuthSchema fields are dump-only, so only the empty document loads |

## Left out

- `User.get_token` (models.py:119-121) is left out: issuing the JWT and its expiry is a call into a foreign library plus a clock.
- bcrypt is not modelled. No salt and no cryptographic property: `hash` and `verify` are parameters.
- Users.Construct: states that the stored password is `hash(password)`. That the stored value differs from the plaintext is a property of bcrypt, which is not modelled.
- `Role` and `roles_users` (models.py:10-15, 98-102, 111-112) are a declared relation with no operations. The `role` keyword passed to `User(...)` is ignored, as the constructor ignores it.
- The SQLAlchemy engine, `scoped_session` and per-request `session.remove()` are not modelled. A failed operation's rollback is modelled as "the table is unchanged".
- Read-only queries raise no database errors in the model. So the rollback branches of `get_title_list` and `get_users_titles_list` (models.py:41-43, 53-55) are not exercised. `Get` models only its "No title with this id" error.
- TitleStore.TitleTable.Delete: the commit of a delete cannot fail in the model, because no constraint refers to `titles`. So it has no error result.
- Titles.FromRow: does not enforce an integer width. `id`, `rating` and `user_id` accept every integer, although the backend refuses values past its INTEGER range (32 bits on PostgreSQL and MySQL, 64 on SQLite). The backend is chosen by configuration, so the range is left open.
- Titles.FromRow: refuses a str in an Integer column and an int in a String column. That is a stricter, backend-independent reading. Many backends coerce such a value instead: SQLite keeps a value it cannot convert as it is, and PostgreSQL converts an int assigned to a text column. Save and Update inherit both points through their success conditions.
- Column lengths (`String(250)`, `String(100)`) are not enforced at commit. Whether they are enforced depends on the database backend, which is chosen by configuration.
- Text is compared exactly: case and trailing spaces count. The source leaves comparison to the database collation, which is chosen by configuration. This affects the `user_name` filter (models.py:51), the `username` lookup (models.py:125), the grouping by `title_name` (models.py:39) and the unique `email` (models.py:109). Under a case-insensitive collation, such as MySQL's default, "Alice" matches "alice" and "A@x.com" collides with "a@x.com".
- Query results come in table order. SQL promises no order without `ORDER BY`, so the model fixes one order that the source does not promise.
- `get_title_list` takes `title_type` from the first row of each group. The source groups by `title_name` only, so which row's type is reported is up to the backend. Some backends reject the query outright.
- `avg_rating` is an exact `real`, not a floating-point value.
- New ids come from a counter kept above every id in the table. A sequence's behaviour after a failed insert is not modelled.
- Keyword arguments that name no column are not modelled. In Python, `setattr` with such a key sets a plain attribute and changes no row. The model's arguments are `(Column, Value)` pairs, where a later pair for the same column wins, as a later `setattr` does.
- Values are `None`, an integer or a string. A value of another Python type is not modelled.
- Marshmallow's `Integer` also accepts numeric strings and integral floats. The model does not: it accepts only integers. Booleans are refused in both.
- The `validate.Length(max=4)` on the integer `rating` (schemas.py:16-17) is not modelled. Its behaviour on an int depends on marshmallow internals.
- Dumping `TitleSchema.user_id` as a nested list of users (schemas.py:14) is not modelled. Dump copies values as they are.
- Load follows marshmallow 3's default of refusing unknown keys, and dump-only keys count as unknown on load. The `only=(...)` projection used by the login endpoint is not modelled.
- The three schema classes are the constants `UserSchema`, `TitleSchema` and `AuthSchema`. Their declarations are stated through the lemmas about each schema in the table above.
- app.py is not part of this model: routing, JWT checks, logging, the 422 handler and the API docs. Three of its call sites do not match the signatures modelled here:
  - app.py:95-96 passes `username=` where the parameter is `user_name`.
  - app.py:127 passes `(user_id, title_id)` positionally to `get(title_id, user_id)`.
  - app.py:177 reads `kwargs["email"]`, which the login schema excludes.
- config.py, which only reads environment variables, is not modelled.
