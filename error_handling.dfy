/** `catchUserError`: runs a builder on behalf of a route and turns a
    `UserInputError` into a 400 response carrying its message; anything
    else the builder throws propagates to the caller. */
module ErrorHandling {
  import opened JsValues
  import opened QueryBuilder

  /** What becomes of a route's request once the builder has run. */
  datatype Disposition =
    | Dispatched(sql: string, params: seq<Value>)   // handed to the database
    | Respond(status: nat, message: string)        // `res.status(status).send(message)`
    | Rethrow(error: Thrown)                       // `throw e`

  const BadRequest := 400

  /** The `try`/`catch` around the builder. Only an instance of
      `UserInputError` is answered; a plain string is not one. */
  function CatchUserError(outcome: Built): (d: Disposition)
    ensures d.Respond? <==> outcome.Threw? && outcome.error.UserInputError?
    ensures d.Respond? ==> d.status == BadRequest && d.message == outcome.error.message
    ensures d.Rethrow? <==> outcome.Threw? && outcome.error.Plain?
    ensures d.Rethrow? ==> d.error == outcome.error
    ensures d.Dispatched? <==> outcome.Statement?
    ensures d.Dispatched? ==> d.sql == outcome.sql && d.params == outcome.params
  {
    match outcome
    case Statement(sql, params) => Dispatched(sql, params)
    case Threw(UserInputError(message)) => Respond(BadRequest, message)
    case Threw(e) => Rethrow(e)
  }

  /** An insert route answers 400 exactly when the first failing field is a
      named required field that resolves to nothing, and the message names
      that field. */
  lemma InsertRespondsIff(table: string, fields: seq<InsertField>, body: Body)
    ensures CatchUserError(InsertOutcome(table, fields, body)).Respond?
      <==> exists i :: 0 <= i < |fields| && fields[i].name != "" && fields[i].required
             && !Truthy(Resolve(fields[i].name, fields[i].value, body))
             && (forall j :: 0 <= j < i ==> !InsertFieldFails(fields[j], body))
    ensures forall i :: 0 <= i < |fields| && fields[i].name != "" && fields[i].required
             && !Truthy(Resolve(fields[i].name, fields[i].value, body))
             && (forall j :: 0 <= j < i ==> !InsertFieldFails(fields[j], body))
             ==> CatchUserError(InsertOutcome(table, fields, body))
                   == Respond(BadRequest, RequiredMessage(fields[i].name))
  {
    InsertUserErrorIff(table, fields, body);
  }

  /** "Nothing to insert!" is a plain string, so the route rethrows it
      instead of answering 400. */
  lemma NothingToInsertRethrown(table: string, fields: seq<InsertField>, body: Body)
    requires forall j :: 0 <= j < |fields| ==>
      fields[j].name != "" && !fields[j].required
      && !Truthy(Resolve(fields[j].name, fields[j].value, body))
    ensures CatchUserError(InsertOutcome(table, fields, body)) == Rethrow(Plain(NothingToInsert))
  {
    NothingToInsertIff(table, fields, body);
  }

  /** An update route answers 400 "No values passed to update" exactly when
      every field is named and none resolves to a value; a field without a
      name is rethrown. */
  lemma UpdateRespondsIff(table: string, fields: seq<UpdateField>, filter: string,
                          filterValues: seq<Value>, body: Body)
    ensures CatchUserError(UpdateOutcome(table, fields, filter, filterValues, body))
              == Respond(BadRequest, NoValuesToUpdate)
      <==> forall i :: 0 <= i < |fields| ==>
             fields[i].name != "" && !Truthy(Resolve(fields[i].name, fields[i].value, body))
    ensures CatchUserError(UpdateOutcome(table, fields, filter, filterValues, body))
              == Rethrow(Plain(NoNameInUpdate))
      <==> exists i :: 0 <= i < |fields| && fields[i].name == ""
  {
    UpdateOutcomes(table, fields, filter, filterValues, body);
    var out := UpdateOutcome(table, fields, filter, filterValues, body);
    if CatchUserError(out) == Respond(BadRequest, NoValuesToUpdate) {
      assert out == Threw(UserInputError(NoValuesToUpdate));
    }
  }
}
