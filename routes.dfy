/** The routes of the REST server that write through the builders: the
    field lists they pass and what a request comes to. `now` is the text
    of `new Date().toISOString()` at the time of the request, and `id` the
    `:id` route parameter. */
module Routes {
  import opened JsValues
  import opened Text
  import opened QueryBuilder
  import opened ErrorHandling

  const TODO := "todo"
  const USERS := "users"

  const ID := "id"
  const SHORT_DESC := "short_desc"
  const USER_ID := "user_id"
  const LONG_DESC := "long_desc"
  const DATE_CREATED := "date_created"
  const DATE_COMPLETED := "date_completed"
  const DUE_DATE := "due_date"
  const FIRST_NAME := "first_name"
  const LAST_NAME := "last_name"
  const EMAIL := "email"

  /** The filter of both update routes, `WHERE ${ID} = $`: its text and
      the one `$` after which `Update` numbers the placeholder. */
  const IdEquals := "WHERE " + ID + " = "
  const ById := IdEquals + "$"

  /** The filter of the update routes becomes ` WHERE id = $<n + 1>`. */
  lemma ByIdFilter(n: nat)
    ensures FilterClause(NonEmpty(Split(ById, '$')), n) == Spliced(IdEquals, n, 0)
  {
    assert IdEquals == "WHERE id = ";
    OneMarkerFilter(IdEquals, n);
  }

  function PostItemFields(now: string): seq<InsertField> {
    [ InsertField(SHORT_DESC, Undefined, true),
      InsertField(USER_ID, Undefined, true),
      InsertField(DATE_CREATED, Str(now), false),
      InsertField(LONG_DESC, Undefined, false),
      InsertField(DUE_DATE, Undefined, false) ]
  }

  const PatchItemFields: seq<UpdateField> :=
    [ UpdateField(SHORT_DESC, Undefined),
      UpdateField(DATE_COMPLETED, Undefined),
      UpdateField(LONG_DESC, Undefined),
      UpdateField(DUE_DATE, Undefined) ]

  function PostUserFields(now: string): seq<InsertField> {
    [ InsertField(EMAIL, Undefined, true),
      InsertField(DATE_CREATED, Str(now), false),
      InsertField(FIRST_NAME, Undefined, false),
      InsertField(LAST_NAME, Undefined, false) ]
  }

  const PatchUserFields: seq<UpdateField> :=
    [ UpdateField(EMAIL, Undefined),
      UpdateField(FIRST_NAME, Undefined),
      UpdateField(LAST_NAME, Undefined) ]

  /** `POST /items`. */
  function PostItem(body: Body, now: string): Disposition {
    CatchUserError(InsertOutcome(TODO, PostItemFields(now), body))
  }

  /** `PATCH /items/:id`. */
  function PatchItem(id: string, body: Body): Disposition {
    CatchUserError(UpdateOutcome(TODO, PatchItemFields, ById, [Str(id)], body))
  }

  /** `POST /users`. */
  function PostUser(body: Body, now: string): Disposition {
    CatchUserError(InsertOutcome(USERS, PostUserFields(now), body))
  }

  /** `PATCH /users/:id`. */
  function PatchUser(id: string, body: Body): Disposition {
    CatchUserError(UpdateOutcome(USERS, PatchUserFields, ById, [Str(id)], body))
  }

  /** A todo with its two required fields and no optional ones is inserted
      with the creation time as the third column: `insert into todo
      (short_desc, user_id, date_created) values ($1, $2, $3)`. */
  lemma PostItemInsertsTodo(body: Body, now: string)
    requires now != ""
    requires Truthy(Lookup(body, SHORT_DESC)) && Truthy(Lookup(body, USER_ID))
    requires !Truthy(Lookup(body, LONG_DESC)) && !Truthy(Lookup(body, DUE_DATE))
    ensures PostItem(body, now) == Dispatched(
      InsertSql(TODO, [SHORT_DESC, USER_ID, DATE_CREATED]),
      [Lookup(body, SHORT_DESC), Lookup(body, USER_ID), Str(now)])
  {
    var fields := PostItemFields(now);
    var resolved := InsertResolved(fields, body);
    assert resolved == [Lookup(body, SHORT_DESC), Lookup(body, USER_ID), Str(now),
                        Lookup(body, LONG_DESC), Lookup(body, DUE_DATE)];
    assert forall j :: 0 <= j < |fields| ==> !InsertFieldFails(fields[j], body);
    var kept := [0, 1, 2];
    assert ExactlyTruthy(kept, resolved);
    InsertKept(TODO, fields, body, kept);
    assert Pick(InsertNames(fields), kept) == [SHORT_DESC, USER_ID, DATE_CREATED];
    assert Pick(resolved, kept) == [Lookup(body, SHORT_DESC), Lookup(body, USER_ID), Str(now)];
  }

  /** The first missing required field decides the answer: without a
      short description the route answers 400 naming `short_desc`, whatever
      else the body holds. */
  lemma PostItemWithoutShortDesc(body: Body, now: string)
    requires !Truthy(Lookup(body, SHORT_DESC))
    ensures PostItem(body, now) == Respond(400, RequiredMessage(SHORT_DESC))
  {
    InsertFailsAtFirstFailingField(TODO, PostItemFields(now), body, 0);
  }

  /** With a short description but no user, the route answers 400 naming
      `user_id`: the field list marks both as required. */
  lemma PostItemWithoutUser(body: Body, now: string)
    requires Truthy(Lookup(body, SHORT_DESC)) && !Truthy(Lookup(body, USER_ID))
    ensures PostItem(body, now) == Respond(400, RequiredMessage(USER_ID))
  {
    var fields := PostItemFields(now);
    assert !InsertFieldFails(fields[0], body);
    InsertFailsAtFirstFailingField(TODO, fields, body, 1);
  }

  /** `POST /items` never rethrows: every field is named, and the creation
      time always resolves, so "Nothing to insert!" cannot happen. */
  lemma PostItemNeverRethrows(body: Body, now: string)
    requires now != ""
    ensures !PostItem(body, now).Rethrow?
  {
    var fields := PostItemFields(now);
    var resolved := InsertResolved(fields, body);
    NothingKept(resolved);
    assert Truthy(resolved[2]);
    assert forall j :: 0 <= j < |fields| ==> fields[j].name != "";
  }

  /** Changing only the short description of item `id`:
      `update todo set short_desc = $1 WHERE id = $2`, bound to the new
      description and the id. */
  lemma PatchItemShortDesc(id: string, body: Body)
    requires Truthy(Lookup(body, SHORT_DESC))
    requires forall i :: 1 <= i < |PatchItemFields| ==> !Truthy(Lookup(body, PatchItemFields[i].name))
    ensures PatchItem(id, body) == Dispatched(
      "update " + TODO + " set " + Assignment(SHORT_DESC, 0) + Spliced(IdEquals, 1, 0),
      [Lookup(body, SHORT_DESC), Str(id)])
  {
    var fields := PatchItemFields;
    var resolved := UpdateResolved(fields, body);
    assert resolved == [Lookup(body, SHORT_DESC), Lookup(body, DATE_COMPLETED),
                        Lookup(body, LONG_DESC), Lookup(body, DUE_DATE)];
    var kept := [0];
    assert ExactlyTruthy(kept, resolved);
    UpdateKept(TODO, fields, ById, [Str(id)], body, kept);
    assert Pick(UpdateNames(fields), kept) == [SHORT_DESC];
    assert Pick(resolved, kept) == [Lookup(body, SHORT_DESC)];
    OneAssignment(SHORT_DESC);
    ByIdFilter(1);
  }

  lemma ShortDescFirst()
    ensures Assignment(SHORT_DESC, 0) == "short_desc = $1"
  {
    assert Dec(1) == "1";
  }

  lemma ByIdSecond()
    ensures Spliced(IdEquals, 1, 0) == " WHERE id = $2"
  {
    assert Dec(2) == "2";
  }

  lemma PatchItemShortDescText()
    ensures "update " + TODO + " set " + "short_desc = $1" + " WHERE id = $2"
         == "update todo set short_desc = $1 WHERE id = $2"
  {
    var head := "update " + TODO + " set ";
    assert head == "update todo set ";
    assert head + "short_desc = $1" == "update todo set short_desc = $1";
    assert "update todo set short_desc = $1" + " WHERE id = $2"
        == "update todo set short_desc = $1 WHERE id = $2";
  }

  /** The same statement as SQL text. */
  lemma PatchItemShortDescSql(id: string, body: Body)
    requires Truthy(Lookup(body, SHORT_DESC))
    requires forall i :: 1 <= i < |PatchItemFields| ==> !Truthy(Lookup(body, PatchItemFields[i].name))
    ensures PatchItem(id, body) == Dispatched(
      "update todo set short_desc = $1 WHERE id = $2", [Lookup(body, SHORT_DESC), Str(id)])
  {
    PatchItemShortDesc(id, body);
    ShortDescFirst();
    ByIdSecond();
    PatchItemShortDescText();
  }

  /** A patch whose body sets none of the route's fields is answered 400. */
  lemma PatchItemNothingToChange(id: string, body: Body)
    requires forall i :: 0 <= i < |PatchItemFields| ==> !Truthy(Lookup(body, PatchItemFields[i].name))
    ensures PatchItem(id, body) == Respond(400, NoValuesToUpdate)
  {
    UpdateRespondsIff(TODO, PatchItemFields, ById, [Str(id)], body);
  }

  /** Neither update route rethrows: all their fields are named. */
  lemma PatchRoutesNeverRethrow(id: string, body: Body)
    ensures !PatchItem(id, body).Rethrow? && !PatchUser(id, body).Rethrow?
  {
    assert !HasUnnamedField(PatchItemFields);
    assert !HasUnnamedField(PatchUserFields);
  }

  /** A user with only the required email is inserted with the creation
      time as the second column. */
  lemma PostUserInsertsUser(body: Body, now: string)
    requires now != ""
    requires Truthy(Lookup(body, EMAIL))
    requires !Truthy(Lookup(body, FIRST_NAME)) && !Truthy(Lookup(body, LAST_NAME))
    ensures PostUser(body, now) == Dispatched(
      InsertSql(USERS, [EMAIL, DATE_CREATED]), [Lookup(body, EMAIL), Str(now)])
  {
    var fields := PostUserFields(now);
    var resolved := InsertResolved(fields, body);
    assert resolved == [Lookup(body, EMAIL), Str(now), Lookup(body, FIRST_NAME), Lookup(body, LAST_NAME)];
    assert forall j :: 0 <= j < |fields| ==> !InsertFieldFails(fields[j], body);
    var kept := [0, 1];
    assert ExactlyTruthy(kept, resolved);
    InsertKept(USERS, fields, body, kept);
    assert Pick(InsertNames(fields), kept) == [EMAIL, DATE_CREATED];
    assert Pick(resolved, kept) == [Lookup(body, EMAIL), Str(now)];
  }

  /** Without an email, `POST /users` answers 400 naming `email`. */
  lemma PostUserWithoutEmail(body: Body, now: string)
    requires !Truthy(Lookup(body, EMAIL))
    ensures PostUser(body, now) == Respond(400, RequiredMessage(EMAIL))
  {
    InsertFailsAtFirstFailingField(USERS, PostUserFields(now), body, 0);
  }

  /** Changing the email and the last name of user `id`:
      `update users set email = $1, last_name = $2 WHERE id = $3`. */
  lemma PatchUserEmailAndLastName(id: string, body: Body)
    requires Truthy(Lookup(body, EMAIL)) && Truthy(Lookup(body, LAST_NAME))
    requires !Truthy(Lookup(body, FIRST_NAME))
    ensures PatchUser(id, body) == Dispatched(
      "update " + USERS + " set " + (Assignment(EMAIL, 0) + ", " + Assignment(LAST_NAME, 1))
        + Spliced(IdEquals, 2, 0),
      [Lookup(body, EMAIL), Lookup(body, LAST_NAME), Str(id)])
  {
    var fields := PatchUserFields;
    var resolved := UpdateResolved(fields, body);
    assert resolved == [Lookup(body, EMAIL), Lookup(body, FIRST_NAME), Lookup(body, LAST_NAME)];
    var kept := [0, 2];
    assert ExactlyTruthy(kept, resolved);
    UpdateKept(USERS, fields, ById, [Str(id)], body, kept);
    assert Pick(UpdateNames(fields), kept) == [EMAIL, LAST_NAME];
    assert Pick(resolved, kept) == [Lookup(body, EMAIL), Lookup(body, LAST_NAME)];
    TwoAssignments(EMAIL, LAST_NAME);
    ByIdFilter(2);
  }
}
