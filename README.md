# TodoJS statement builders in Dafny

The REST server of TodoJS stores todo items and users in PostgreSQL. Its
writing routes never spell out their SQL: they hand a table name, an ordered
list of field descriptors and the parsed request body to one of two
builders, and wrap the call in `catchUserError`.

- `Insert` builds `insert into <table> (<columns>) values ($1, ..., $n)`.
- `Update` builds `update <table> set a = $1, b = $2 ...` and then splices a
  filter template such as `WHERE id = $`. The filter's placeholders are
  numbered after the value placeholders, and the filter values are appended
  to the parameters.
- For each field, the value is the descriptor's fixed value when that is
  truthy, else `body[name]`. Only fields whose value is truthy are kept.
- A builder throws instead of building on bad input:
  - a field without a name throws a plain string;
  - a required field that resolves to nothing throws a `UserInputError`;
  - an insert that keeps nothing throws a plain string;
  - an update that keeps nothing throws a `UserInputError`.
- `catchUserError` answers a `UserInputError` with status 400 and its
  message. It rethrows anything else.

The project is made of five modules:

- `JsValues` (`js_values.dfy`): JavaScript values, truthiness, and the
  request body as a map in which an absent key reads as `undefined`.
- `Text` (`text.dfy`): the string operations the builders use.
  - `Array.prototype.join` is `Join`.
  - `String.prototype.split` with a one-character separator is `Split`.
  - The decimal rendering `${n}` of a placeholder number is `Dec`.
  - Round trips connect `Join` with `Split` and `Dec` with its reading
    back, `ParseDec`.
- `QueryBuilder` (`query_builder.dfy`): the field shapes, what a builder
  throws, and the two builders.
  - Each builder is a `method` with the source's loops. It returns
    `Statement(sql, params)` (what it would hand to the database) or
    `Threw(error)`.
  - Each is proved equal to a loop-free description, `InsertOutcome` or
    `UpdateOutcome`.
  - Lemmas state what those descriptions promise: the first failing field
    decides the error; the kept fields, in order, give the columns and
    the parameters; placeholders are `$1..$n`; the filter numbering
    continues from n + 1.
  - Each loop is tied to its description through a recursive "scan"
    function (`ColumnScan`, `PlaceholderScan`, `SetScan`, `FilterScan`). A
    scan function follows the loop's state one element at a time.
  - The filter loop of `Update` (server.ts lines 86-91) is the separate
    method `SpliceFilter`. `Update` calls it where the loop stood.
- `ErrorHandling` (`error_handling.dfy`): `catchUserError` as a function
  from a builder's outcome to what happens to the request: dispatched,
  answered with a status, or rethrown.
- `Routes` (`routes.dfy`): the field lists of `POST /items`,
  `PATCH /items/:id`, `POST /users` and `PATCH /users/:id`. Concrete lemmas
  state what these routes do with typical bodies.

The clock (`new Date().toISOString()`) is the parameter `now`, and the
`:id` route parameter is the parameter `id`.

Two behaviours of the code worth knowing:

- Every non-empty fragment of the split filter receives a placeholder,
  the first one included. Text after the last `$` receives one as well
  (`TrailingTextGetsPlaceholder`).
- A `POST /items` body with only a short description is refused. The
  route marks `user_id` as required, so it answers 400 naming `user_id`
  (`PostItemWithoutUser`).

## Model

| member | source | states |
|---|---|---|
| `JsValues.Truthy` | REST/src/server.ts:108-109 | JavaScript truthiness behind `!value` and `if (value)` (also lines 75-76): `undefined`, `null`, `false`, `0`, `NaN` and `""` are falsy; a definition, used by every builder lemma |
| `JsValues.Lookup` | REST/src/server.ts:108 | `body[name]` (also line 75): the body's value under the name, `undefined` when absent; a definition, characterised through `QueryBuilder.Resolve` |
| `QueryBuilder.Resolve` | REST/src/server.ts:106-109 | a truthy fixed value wins; a falsy one falls back to `body[name]`; the result is truthy iff the fixed value is truthy or the body holds a truthy value under the name (same rule at lines 73-76) |
| `QueryBuilder.TruthyIndices` | REST/src/server.ts:105-116 | the positions of the kept fields, each within the field list |
| `QueryBuilder.TruthyIndicesExact` | REST/src/server.ts:109 | the kept positions are exactly those whose resolved value is truthy, in increasing order |
| `QueryBuilder.ExactlyTruthyUnique` | REST/src/server.ts:105-116 | only one increasing list of positions is exactly the truthy ones, so the kept columns are determined |
| `QueryBuilder.NothingKept` | REST/src/server.ts:117 | nothing is kept iff no resolved value is truthy |
| `QueryBuilder.PlaceholderNumbers` | REST/src/server.ts:119-122 | there are n placeholders, and the k-th is `$` followed by the decimal text of k + 1 |
| `QueryBuilder.FirstFailingInsertField` | REST/src/server.ts:105-116 | the first field, in list order, that is unnamed or required-but-absent; no field before it fails; none means no field fails |
| `QueryBuilder.FirstFailingInsertFieldAt` | REST/src/server.ts:105-116 | a failing field with no failing field before it is the first failing field |
| `QueryBuilder.ColumnScanClause` | REST/src/server.ts:105-116 | the column loop appends the names of the kept fields joined by `", "` and collects their values, in order |
| `QueryBuilder.PlaceholderScanClause` | REST/src/server.ts:119-122 | the placeholder loop appends `$1, ..., $n` joined by `", "` |
| `QueryBuilder.InsertOutcomeByScans` | REST/src/server.ts:103-123 | with no failing field, the loop-free description equals what the two loops compute, and keeping nothing gives "Nothing to insert!" |
| `QueryBuilder.Insert` | REST/src/server.ts:97-125 | the loop method returns exactly `InsertOutcome`: the error of the first failing field, "Nothing to insert!", or the statement and its parameters |
| `QueryBuilder.InsertFailsAtFirstFailingField` | REST/src/server.ts:105-116 | at the first failing field an insert throws the plain "No field name provided in insert statement" if it is unnamed, else `UserInputError("Required field <name> not provided!")`, whatever follows |
| `QueryBuilder.InsertUserErrorIff` | REST/src/server.ts:113-114 | an insert throws a `UserInputError` iff some named required field resolves to nothing with no failing field before it; the message names that field |
| `QueryBuilder.NothingToInsertIff` | REST/src/server.ts:117 | an insert throws the plain "Nothing to insert!" iff every field is named, optional and resolves to nothing |
| `QueryBuilder.InsertSucceedsIff` | REST/src/server.ts:105-124 | an insert builds a statement iff no field fails and some field resolves truthy |
| `QueryBuilder.InsertKept` | REST/src/server.ts:103-123 | with no failing field and a non-empty list of exactly the truthy positions, the insert is the statement over those positions |
| `QueryBuilder.InsertStatement` | REST/src/server.ts:103-123 | on success the columns and parameters are the names and values of exactly the truthy fields, in order; every parameter is truthy; the values clause is `$1, ..., $n` for n parameters |
| `QueryBuilder.SetClauseStep` | REST/src/server.ts:76-80 | adding one kept field adds `", "` (except for the first) and `name = $k`, where k is the new number of values |
| `QueryBuilder.SetScanClause` | REST/src/server.ts:72-81 | the field loop appends `name_k = $k` for the kept fields joined by `", "` and collects their values, in order |
| `QueryBuilder.SetScanTruthyStep` | REST/src/server.ts:76-80 | one truthy field extends the SET clause by its assignment and the values by its value |
| `QueryBuilder.NonEmptyMembers` | REST/src/server.ts:88 | a fragment is among those the filter loop keeps iff it is a non-empty fragment of the filter (membership only; order and multiplicity are `NonEmptyInOrder`) |
| `QueryBuilder.NonEmptyIndices` | REST/src/server.ts:87-88 | the positions of the fragments the filter loop splices, each within the fragment list |
| `QueryBuilder.NonEmptyIndicesExact` | REST/src/server.ts:87-88 | those positions are exactly the non-empty fragments' positions, in increasing order |
| `QueryBuilder.NonEmptyPick` | REST/src/server.ts:87-90 | the spliced fragments are the fragments at those positions |
| `QueryBuilder.NonEmptyInOrder` | REST/src/server.ts:87-90 | for any increasing list of exactly the non-empty positions, the spliced fragments are the fragments at those positions: every non-empty fragment once, in filter order, and no empty one |
| `QueryBuilder.FilterClauseAppend` | REST/src/server.ts:89-90 | one more non-empty fragment appends ` <fragment>$<n + j + 1>` |
| `QueryBuilder.FilterScanClause` | REST/src/server.ts:86-91 | the filter loop appends the spliced non-empty fragments, numbered on from n, and its counter ends at n plus their count |
| `QueryBuilder.SpliceFilter` | REST/src/server.ts:86-91 | the filter loop method returns the text the filter scan describes |
| `QueryBuilder.UpdateFailsOnUnnamedField` | REST/src/server.ts:74 | an unnamed field makes an update throw the plain "No field name provided in update statement", whatever else |
| `QueryBuilder.UpdateOutcomeByScans` | REST/src/server.ts:70-93 | with every field named, the loop-free description equals what the two loops compute, and keeping nothing gives `UserInputError("No values passed to update")` |
| `QueryBuilder.Update` | REST/src/server.ts:62-95 | the loop method returns exactly `UpdateOutcome` |
| `QueryBuilder.UpdateOutcomes` | REST/src/server.ts:72-83 | an update throws the plain no-name error iff a field is unnamed; it throws `UserInputError("No values passed to update")` iff every field is named and none resolves; it builds a statement iff all are named and some field resolves |
| `QueryBuilder.UpdateStatement` | REST/src/server.ts:70-93 | on success the SET clause is `name_k = $k` for the truthy fields in order; the filter follows with placeholders from n + 1; the parameters are the resolved values followed by the filter values |
| `QueryBuilder.UpdateKept` | REST/src/server.ts:70-93 | with every field named and a non-empty list of exactly the truthy positions, the update is the statement over those positions followed by the filter and the filter values |
| `QueryBuilder.OneAssignment` | REST/src/server.ts:79 | one kept column gives the SET clause `name = $1` |
| `QueryBuilder.TwoAssignments` | REST/src/server.ts:78-79 | two kept columns give `a = $1, b = $2` |
| `QueryBuilder.NonEmptyOfNonEmpty` | REST/src/server.ts:88 | fragments that are all non-empty are all kept |
| `QueryBuilder.OneMarkerFilter` | REST/src/server.ts:84-92 | a filter made of `$`-free text and one trailing `$` becomes ` <text>$<n + 1>` |
| `QueryBuilder.TrailingTextGetsPlaceholder` | REST/src/server.ts:84-92 | text after the last `$` is a fragment too: `<a>$<b>` becomes ` <a>$<n+1> <b>$<n+2>` |
| `Text.Join` | REST/src/server.ts:78-79 | the `", "`-separated text the loops build (also lines 111-112 and 120-121); a definition, characterised by `Text.JoinAppend`, `Text.JoinStep` and `Text.JoinSplit` |
| `Text.JoinAppend` | REST/src/server.ts:111-112 | appending an item to a join appends the separator and the item, except after an empty list |
| `Text.JoinStep` | REST/src/server.ts:120-121 | appending to a string that ends in a join adds the separator only when the join was non-empty |
| `Text.Split` | REST/src/server.ts:84 | `split` always yields at least one piece |
| `Text.SplitPiecesFree` | REST/src/server.ts:84 | no piece contains the separator |
| `Text.JoinSplit` | REST/src/server.ts:84 | joining the pieces with the separator gives the filter back |
| `Text.SplitWithoutSeparator` | REST/src/server.ts:84 | a string without the separator is one piece |
| `Text.SplitAfterSeparator` | REST/src/server.ts:84 | a separator followed by separator-free text adds exactly that text as a piece |
| `Text.SplitJoin` | REST/src/server.ts:84 | splitting separator-free pieces joined by the separator gives them back |
| `Text.Digit` | REST/src/server.ts:121 | a digit value renders as a digit character |
| `Text.Dec` | REST/src/server.ts:121 | the decimal text of `${n}` (also lines 79 and 90), never empty; characterised by `Text.DecDigits` and `Text.DecRoundTrip` |
| `Text.DecDigits` | REST/src/server.ts:121 | a rendered placeholder number is all digits, with a leading zero only for 0 |
| `Text.DecRoundTrip` | REST/src/server.ts:121 | reading a rendered number back gives the number, so distinct placeholder numbers are distinct texts (same rendering at lines 79 and 90) |
| `ErrorHandling.CatchUserError` | REST/src/server.ts:127-135 | a `UserInputError` becomes status 400 with its message; any other error is rethrown unchanged; a built statement goes ahead untouched |
| `ErrorHandling.InsertRespondsIff` | REST/src/server.ts:113-114 | an insert route answers 400 iff the first failing field is a named required field with no value, and the message names it |
| `ErrorHandling.NothingToInsertRethrown` | REST/src/server.ts:117 | "Nothing to insert!" is rethrown, not answered with 400 |
| `ErrorHandling.UpdateRespondsIff` | REST/src/server.ts:82-83 | an update route answers 400 "No values passed to update" iff all fields are named and none resolves; it rethrows the no-name error iff a field is unnamed |
| `Routes.PostItem` | REST/src/server.ts:189-207 | `POST /items`: `catchUserError` around the insert of its field list; a definition, characterised by the `Routes.PostItem*` lemmas |
| `Routes.PatchItem` | REST/src/server.ts:209-226 | `PATCH /items/:id`: `catchUserError` around the update of its field list with filter `WHERE id = $` and the id; characterised by the `Routes.PatchItem*` lemmas |
| `Routes.PostUser` | REST/src/server.ts:247-264 | `POST /users`; characterised by the `Routes.PostUser*` lemmas |
| `Routes.PatchUser` | REST/src/server.ts:266-278 | `PATCH /users/:id`; characterised by `Routes.PatchUserEmailAndLastName` and `Routes.PatchRoutesNeverRethrow` |
| `Routes.ByIdFilter` | REST/src/server.ts:220 | the filter `WHERE id = $` becomes ` WHERE id = $<n + 1>` |
| `Routes.PostItemInsertsTodo` | REST/src/server.ts:191-199 | a todo with a short description and a user, and no optional fields, is inserted as `(short_desc, user_id, date_created)` with the creation time as the third parameter |
| `Routes.PostItemWithoutShortDesc` | REST/src/server.ts:194 | without a short description, `POST /items` answers 400 naming `short_desc` |
| `Routes.PostItemWithoutUser` | REST/src/server.ts:195 | with a short description but no user, it answers 400 naming `user_id` |
| `Routes.PostItemNeverRethrows` | REST/src/server.ts:191-199 | `POST /items` never rethrows: its fields are named and the creation time always resolves |
| `Routes.PatchItemShortDesc` | REST/src/server.ts:212-221 | patching only the short description gives `update todo set short_desc = $1 WHERE id = $2` bound to the description and the id |
| `Routes.PatchItemShortDescSql` | REST/src/server.ts:212-221 | the same as literal SQL: `update todo set short_desc = $1 WHERE id = $2`, bound to the description and the id |
| `Routes.PatchItemNothingToChange` | REST/src/server.ts:212-221 | a patch body setting none of the item fields answers 400 "No values passed to update" |
| `Routes.PatchRoutesNeverRethrow` | REST/src/server.ts:209-278 | neither patch route rethrows |
| `Routes.PostUserInsertsUser` | REST/src/server.ts:249-256 | a user with only an email is inserted as `(email, date_created)` |
| `Routes.PostUserWithoutEmail` | REST/src/server.ts:252 | without an email, `POST /users` answers 400 naming `email` |
| `Routes.PatchUserEmailAndLastName` | REST/src/server.ts:269-273 | patching the email and last name gives `update users set email = $1, last_name = $2 WHERE id = $3` |

## Left out

- `queryDB` and `queryAll` (server.ts lines 17-42) are not modelled. They are the connection pool, the asynchronous callbacks and the errors thrown inside them. The builders return the statement instead of sending it, and the success callbacks are dropped.
- The Express application is not modelled: route registration, `res.status(...).send(...)`, the read and delete routes and `app.listen`. Only what `catchUserError` decides is modelled.
- The `CREATE TABLE` statements and the dotenv and pool configuration are left out. They are constant text and environment settings.
- `new Date().toISOString()` is the string parameter `now`, because the clock is outside the model.
- Nothing checks that the number of filter placeholders equals the number of filter values, because the source does not check it either.
- `Lookup` reads only the body's own keys. Keys inherited from `Object.prototype`, such as `constructor`, are not modelled, and neither is a missing body.
- A missing field name is the empty string. The `name: string` type of the descriptors excludes names of other types.
- `Value` has no BigInt, Symbol or function values, and numbers are reals plus `NaN`. The builders only test a value's truthiness and pass it through.
- `Routes.PostItemInsertsTodo`: the expected SQL is stated through `InsertSql`, not as literal text.
- `Routes.PatchUserEmailAndLastName`: the expected SQL is stated through `Assignment` and `Spliced`, not as literal text.
- `Text.Split` is modelled only for a one-character separator, the only kind the source uses.
