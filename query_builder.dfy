/** The dynamic SQL statement builders of the REST server: `Insert` builds
    `insert into <table> (<columns>) values ($1, ..., $n)` and `Update`
    builds `update <table> set a = $1, ... <filter>` from an ordered list of
    field descriptors and a request body. Instead of handing the statement
    to the database, each builder returns it (or what it threw).

    Each builder is a method with the source's loops, proved equal to a
    declarative description (`InsertOutcome`, `UpdateOutcome`); the lemmas
    state what that description promises. */
module QueryBuilder {
  import opened JsValues
  import opened Text

  datatype Option<T> = None | Some(value: T)

  /** `InsertField`: a column, an optional fixed value (`Undefined` when the
      descriptor has none) and whether the body must supply it. */
  datatype InsertField = InsertField(name: string, value: Value, required: bool)

  /** `UpdateField`: a column and an optional fixed value. */
  datatype UpdateField = UpdateField(name: string, value: Value)

  /** What a builder throws: an instance of the `UserInputError` class, or a
      plain string (which is not a `UserInputError`). */
  datatype Thrown = UserInputError(message: string) | Plain(text: string)

  /** The statement text with its bound parameters, or what was thrown
      before any statement reached the database. */
  datatype Built = Statement(sql: string, params: seq<Value>) | Threw(error: Thrown)

  const NoNameInInsert := "No field name provided in insert statement"
  const NoNameInUpdate := "No field name provided in update statement"
  const NothingToInsert := "Nothing to insert!"
  const NoValuesToUpdate := "No values passed to update"

  function RequiredMessage(name: string): string {
    "Required field " + name + " not provided!"
  }

  // ---------------------------------------------------------------------
  // Value resolution, shared by both builders
  // ---------------------------------------------------------------------

  /** `if (!value) value = body[name]`: a truthy fixed value wins, a falsy
      one falls back to the body; a falsy outcome counts as absent. */
  function Resolve(name: string, fixed: Value, body: Body): (v: Value)
    ensures Truthy(fixed) ==> v == fixed
    ensures !Truthy(fixed) ==> v == Lookup(body, name)
    ensures Truthy(v) <==> Truthy(fixed) || (name in body && Truthy(body[name]))
  {
    if Truthy(fixed) then fixed else Lookup(body, name)
  }

  function InsertNames(fields: seq<InsertField>): seq<string> {
    seq(|fields|, i requires 0 <= i < |fields| => fields[i].name)
  }

  function InsertResolved(fields: seq<InsertField>, body: Body): seq<Value> {
    seq(|fields|, i requires 0 <= i < |fields| => Resolve(fields[i].name, fields[i].value, body))
  }

  function UpdateNames(fields: seq<UpdateField>): seq<string> {
    seq(|fields|, i requires 0 <= i < |fields| => fields[i].name)
  }

  function UpdateResolved(fields: seq<UpdateField>, body: Body): seq<Value> {
    seq(|fields|, i requires 0 <= i < |fields| => Resolve(fields[i].name, fields[i].value, body))
  }

  /** `idx` lists, in increasing order, exactly the positions of the truthy
      values of `vs`. */
  ghost predicate ExactlyTruthy(idx: seq<nat>, vs: seq<Value>) {
    && (forall k :: 0 <= k < |idx| ==> idx[k] < |vs|)
    && (forall k, l :: 0 <= k < l < |idx| ==> idx[k] < idx[l])
    && (forall i :: 0 <= i < |vs| ==> (Truthy(vs[i]) <==> i in idx))
  }

  /** The positions of the fields a builder keeps. */
  function TruthyIndices(vs: seq<Value>): (idx: seq<nat>)
    ensures forall k :: 0 <= k < |idx| ==> idx[k] < |vs|
  {
    if |vs| == 0 then []
    else
      var init := TruthyIndices(vs[..|vs| - 1]);
      if Truthy(vs[|vs| - 1]) then init + [|vs| - 1] else init
  }

  /** The kept positions are exactly those of the truthy values, in order. */
  lemma {:induction false} TruthyIndicesExact(vs: seq<Value>)
    ensures ExactlyTruthy(TruthyIndices(vs), vs)
  {
    if |vs| > 0 {
      var init := vs[..|vs| - 1];
      TruthyIndicesExact(init);
      assert forall i :: 0 <= i < |vs| - 1 ==> init[i] == vs[i];
    }
  }

  ghost predicate Increasing(a: seq<nat>) {
    forall k, l :: 0 <= k < l < |a| ==> a[k] < a[l]
  }

  lemma HeadIn(b: seq<nat>)
    ensures |b| > 0 ==> b[0] in b
  {
  }

  /** The first element of an increasing list is its least, and the rest
      are the elements above it. */
  lemma HeadAndTail(a: seq<nat>)
    requires Increasing(a) && |a| > 0
    ensures forall x :: x in a ==> a[0] <= x
    ensures forall x :: x in a[1..] <==> x in a && x > a[0]
  {
    forall x | x in a && x > a[0]
      ensures x in a[1..]
    {
      var i :| 0 <= i < |a| && a[i] == x;
      assert a[1..][i - 1] == x;
    }
  }

  lemma {:induction false} IncreasingDetermined(a: seq<nat>, b: seq<nat>)
    requires Increasing(a) && Increasing(b)
    requires forall x :: x in a <==> x in b
    ensures a == b
  {
    if |a| == 0 {
      HeadIn(b);
    } else {
      assert a[0] in b && b[0] in a;
      HeadAndTail(a);
      HeadAndTail(b);
      IncreasingDetermined(a[1..], b[1..]);
      assert a == [a[0]] + a[1..] && b == [b[0]] + b[1..];
    }
  }

  /** `ExactlyTruthy` pins the kept positions down: there is one such list. */
  lemma ExactlyTruthyUnique(a: seq<nat>, b: seq<nat>, vs: seq<Value>)
    requires ExactlyTruthy(a, vs) && ExactlyTruthy(b, vs)
    ensures a == b
  {
    forall x
      ensures x in a <==> x in b
    {
      if x in a {
        var k :| 0 <= k < |a| && a[k] == x;
      }
      if x in b {
        var k :| 0 <= k < |b| && b[k] == x;
      }
    }
    IncreasingDetermined(a, b);
  }

  lemma NothingKept(vs: seq<Value>)
    ensures |TruthyIndices(vs)| == 0 <==> forall i :: 0 <= i < |vs| ==> !Truthy(vs[i])
  {
    var idx := TruthyIndices(vs);
    TruthyIndicesExact(vs);
    if |idx| > 0 {
      assert Truthy(vs[idx[0]]);
    }
  }

  /** The elements of `xs` at the positions `idx`, in that order. */
  function Pick<T>(xs: seq<T>, idx: seq<nat>): seq<T>
    requires forall k :: 0 <= k < |idx| ==> idx[k] < |xs|
  {
    seq(|idx|, k requires 0 <= k < |idx| => xs[idx[k]])
  }

  lemma PickAppend<T>(xs: seq<T>, idx: seq<nat>, i: nat)
    requires forall k :: 0 <= k < |idx| ==> idx[k] < |xs|
    requires i < |xs|
    ensures Pick(xs, idx + [i]) == Pick(xs, idx) + [xs[i]]
  {
  }

  /** Extending the scanned prefix by one value extends the kept positions
      by that value's position when it is truthy. */
  lemma TruthyIndicesStep(vs: seq<Value>, i: nat)
    requires i < |vs|
    ensures TruthyIndices(vs[..i + 1]) ==
      TruthyIndices(vs[..i]) + (if Truthy(vs[i]) then [i] else [])
  {
    assert vs[..i + 1][..i] == vs[..i];
  }

  /** `$1`, `$2`, ..., `$n`. */
  function Placeholders(n: nat): seq<string> {
    seq(n, k requires 0 <= k < n => "$" + Dec(k + 1))
  }

  lemma PlaceholdersAppend(n: nat)
    ensures Placeholders(n + 1) == Placeholders(n) + ["$" + Dec(n + 1)]
  {
  }

  /** The k-th placeholder (from 0) reads back as parameter number k + 1. */
  lemma PlaceholderNumbers(n: nat)
    ensures |Placeholders(n)| == n
    ensures forall k :: 0 <= k < n ==>
      Placeholders(n)[k][0] == '$' && ParseDec(Placeholders(n)[k][1..]) == k + 1
  {
    forall k | 0 <= k < n
      ensures ParseDec(Placeholders(n)[k][1..]) == k + 1
    {
      assert Placeholders(n)[k][1..] == Dec(k + 1);
      DecRoundTrip(k + 1);
    }
  }

  // ---------------------------------------------------------------------
  // Insert
  // ---------------------------------------------------------------------

  /** A field on which the insert loop throws: it has no name, or it is
      required and resolves to nothing. */
  predicate InsertFieldFails(f: InsertField, body: Body) {
    f.name == "" || (f.required && !Truthy(Resolve(f.name, f.value, body)))
  }

  /** What the insert loop throws at a failing field. */
  function InsertFieldError(f: InsertField): Thrown {
    if f.name == "" then Plain(NoNameInInsert) else UserInputError(RequiredMessage(f.name))
  }

  /** The position of the first failing field, if any. */
  function FirstFailingInsertField(fields: seq<InsertField>, body: Body): (r: Option<nat>)
    ensures r.Some? ==>
      && r.value < |fields|
      && InsertFieldFails(fields[r.value], body)
      && forall j :: 0 <= j < r.value ==> !InsertFieldFails(fields[j], body)
    ensures r.None? ==> forall j :: 0 <= j < |fields| ==> !InsertFieldFails(fields[j], body)
  {
    if |fields| == 0 then None
    else if InsertFieldFails(fields[0], body) then Some(0)
    else match FirstFailingInsertField(fields[1..], body)
      case None => None
      case Some(j) => Some(j + 1)
  }

  lemma FirstFailingInsertFieldAt(fields: seq<InsertField>, body: Body, i: nat)
    requires i < |fields| && InsertFieldFails(fields[i], body)
    requires forall j :: 0 <= j < i ==> !InsertFieldFails(fields[j], body)
    ensures FirstFailingInsertField(fields, body) == Some(i)
  {
    var r := FirstFailingInsertField(fields, body);
    assert r.Some?;
  }

  function InsertSql(table: string, columns: seq<string>): string {
    "insert into " + table + " (" + Join(", ", columns) + ") values ("
      + Join(", ", Placeholders(|columns|)) + ")"
  }

  /** What `Insert` does, stated without its loops: the first failing field
      decides the error; otherwise the kept fields give the columns and the
      parameters, and keeping none is an error too. */
  function InsertOutcome(table: string, fields: seq<InsertField>, body: Body): Built {
    match FirstFailingInsertField(fields, body)
    case Some(i) => Threw(InsertFieldError(fields[i]))
    case None =>
      var resolved := InsertResolved(fields, body);
      var kept := TruthyIndices(resolved);
      if |kept| == 0 then Threw(Plain(NothingToInsert))
      else Statement(InsertSql(table, Pick(InsertNames(fields), kept)), Pick(resolved, kept))
  }

  /** One kept field extends the kept positions and the parameters. */
  lemma KeepField(resolved: seq<Value>, names: seq<string>, kept: seq<nat>, i: nat)
    requires |names| == |resolved| && i < |resolved| && Truthy(resolved[i])
    requires kept == TruthyIndices(resolved[..i])
    ensures TruthyIndices(resolved[..i + 1]) == kept + [i]
    ensures Pick(resolved, kept + [i]) == Pick(resolved, kept) + [resolved[i]]
    ensures Pick(names, kept + [i]) == Pick(names, kept) + [names[i]]
  {
    TruthyIndicesStep(resolved, i);
    PickAppend(resolved, kept, i);
    PickAppend(names, kept, i);
  }

  /** The column loop of `Insert` as a recursion: the text and the values
      after scanning fields with names `names` whose values resolved to
      `resolved`, starting from `head`. */
  function ColumnScan(head: string, names: seq<string>, resolved: seq<Value>): (string, seq<Value>)
    requires |names| == |resolved|
  {
    if |names| == 0 then (head, [])
    else
      var m := |names| - 1;
      var (query, values) := ColumnScan(head, names[..m], resolved[..m]);
      if Truthy(resolved[m]) then
        ((if |values| > 0 then query + ", " else query) + names[m], values + [resolved[m]])
      else (query, values)
  }

  lemma ColumnScanStep(head: string, names: seq<string>, resolved: seq<Value>, i: nat)
    requires |names| == |resolved| && i < |names|
    ensures var (query, values) := ColumnScan(head, names[..i], resolved[..i]);
      ColumnScan(head, names[..i + 1], resolved[..i + 1]) ==
        if Truthy(resolved[i]) then
          ((if |values| > 0 then query + ", " else query) + names[i], values + [resolved[i]])
        else (query, values)
  {
    assert names[..i + 1][..i] == names[..i] && resolved[..i + 1][..i] == resolved[..i];
  }

  /** The column loop appends the names of the truthy fields, separated by
      commas, and collects their values. */
  lemma {:induction false} ColumnScanClause(head: string, names: seq<string>, resolved: seq<Value>)
    requires |names| == |resolved|
    ensures var kept := TruthyIndices(resolved);
      ColumnScan(head, names, resolved) == (head + Join(", ", Pick(names, kept)), Pick(resolved, kept))
  {
    if |names| == 0 {
      assert Pick(names, []) == [] && Pick(resolved, []) == [];
      assert head + "" == head;
    } else {
      var m := |names| - 1;
      ColumnScanClause(head, names[..m], resolved[..m]);
      var kept := TruthyIndices(resolved[..m]);
      PickPrefix(resolved, m, kept);
      PickPrefix(names, m, kept);
      TruthyIndicesStep(resolved, m);
      assert resolved[..m + 1] == resolved;
      if Truthy(resolved[m]) {
        KeepField(resolved, names, kept, m);
        JoinStep(head, ", ", Pick(names, kept), names[m]);
        if |kept| == 0 {
          assert Pick(names, kept) == [];
          assert head + Join(", ", Pick(names, kept)) == head;
        }
        assert |Pick(names, kept)| == |Pick(resolved, kept)|;
      }
    }
  }

  /** The placeholder loop of `Insert` as a recursion on the count. */
  function PlaceholderScan(head: string, n: nat): string {
    if n == 0 then head
    else (if n - 1 != 0 then PlaceholderScan(head, n - 1) + ", " else PlaceholderScan(head, n - 1))
           + ("$" + Dec(n))
  }

  /** The placeholder loop appends `$1, ..., $n`. */
  lemma {:induction false} PlaceholderScanClause(head: string, n: nat)
    ensures PlaceholderScan(head, n) == head + Join(", ", Placeholders(n))
  {
    if n == 0 {
      assert Placeholders(0) == [];
      assert head + "" == head;
    } else {
      PlaceholderScanClause(head, n - 1);
      PlaceholdersAppend(n - 1);
      JoinStep(head, ", ", Placeholders(n - 1), "$" + Dec(n));
    }
  }

  /** With no failing field, `InsertOutcome` is what the two loops of
      `Insert` compute, scanned one field and one placeholder at a time. */
  lemma InsertOutcomeByScans(table: string, fields: seq<InsertField>, body: Body)
    requires forall j :: 0 <= j < |fields| ==> !InsertFieldFails(fields[j], body)
    ensures var (query, values) := ColumnScan("insert into " + table + " (", InsertNames(fields), InsertResolved(fields, body));
      InsertOutcome(table, fields, body) ==
        if |values| == 0 then Threw(Plain(NothingToInsert))
        else Statement(PlaceholderScan(query + ") values (", |values|) + ")", values)
  {
    assert FirstFailingInsertField(fields, body).None?;
    var resolved, names := InsertResolved(fields, body), InsertNames(fields);
    var kept := TruthyIndices(resolved);
    ColumnScanClause("insert into " + table + " (", names, resolved);
    var query := "insert into " + table + " (" + Join(", ", Pick(names, kept));
    PlaceholderScanClause(query + ") values (", |kept|);
  }

  /** The insert builder: the source's two loops, returning the statement. */
  method Insert(table: string, fields: seq<InsertField>, body: Body) returns (r: Built)
    ensures r == InsertOutcome(table, fields, body)
  {
    var query := "insert into " + table + " (";
    var values: seq<Value> := [];
    ghost var prefix := query;
    ghost var resolved := InsertResolved(fields, body);
    ghost var names := InsertNames(fields);
    var i := 0;
    while i < |fields|
      invariant 0 <= i <= |fields|
      invariant forall j :: 0 <= j < i ==> !InsertFieldFails(fields[j], body)
      invariant (query, values) == ColumnScan(prefix, names[..i], resolved[..i])
    {
      var name, value, required := fields[i].name, fields[i].value, fields[i].required;
      if name == "" {
        InsertFailsAtFirstFailingField(table, fields, body, i);
        r := Threw(Plain(NoNameInInsert));
        return;
      }
      if !Truthy(value) {
        value := Lookup(body, name);
      }
      assert value == resolved[i] && name == names[i];
      ColumnScanStep(prefix, names, resolved, i);
      if Truthy(value) {
        values := values + [value];
        if |values| > 1 {
          query := query + ", ";
        }
        query := query + name;
      } else if required {
        InsertFailsAtFirstFailingField(table, fields, body, i);
        r := Threw(UserInputError(RequiredMessage(name)));
        return;
      }
      i := i + 1;
    }
    assert names[..|fields|] == names && resolved[..|fields|] == resolved;
    InsertOutcomeByScans(table, fields, body);
    if |values| == 0 {
      r := Threw(Plain(NothingToInsert));
      return;
    }
    query := query + ") values (";
    ghost var head := query;
    i := 0;
    while i < |values|
      invariant 0 <= i <= |values|
      invariant query == PlaceholderScan(head, i)
    {
      if i != 0 {
        query := query + ", ";
      }
      query := query + ("$" + Dec(i + 1));
      i := i + 1;
    }
    query := query + ")";
    r := Statement(query, values);
  }

  /** Insert fails with the error of its first failing field, whatever
      follows it. */
  lemma InsertFailsAtFirstFailingField(table: string, fields: seq<InsertField>, body: Body, i: nat)
    requires i < |fields| && InsertFieldFails(fields[i], body)
    requires forall j :: 0 <= j < i ==> !InsertFieldFails(fields[j], body)
    ensures InsertOutcome(table, fields, body) ==
      Threw(if fields[i].name == "" then Plain(NoNameInInsert)
            else UserInputError(RequiredMessage(fields[i].name)))
  {
    FirstFailingInsertFieldAt(fields, body, i);
  }

  /** Insert throws a `UserInputError` exactly when the first failing field
      is a named required field that resolves to nothing; the message names
      that field. */
  lemma InsertUserErrorIff(table: string, fields: seq<InsertField>, body: Body)
    ensures InsertOutcome(table, fields, body).Threw? && InsertOutcome(table, fields, body).error.UserInputError?
      <==> exists i :: 0 <= i < |fields| && fields[i].name != "" && fields[i].required
             && !Truthy(Resolve(fields[i].name, fields[i].value, body))
             && (forall j :: 0 <= j < i ==> !InsertFieldFails(fields[j], body))
    ensures forall i :: 0 <= i < |fields| && fields[i].name != "" && fields[i].required
             && !Truthy(Resolve(fields[i].name, fields[i].value, body))
             && (forall j :: 0 <= j < i ==> !InsertFieldFails(fields[j], body))
             ==> InsertOutcome(table, fields, body) == Threw(UserInputError(RequiredMessage(fields[i].name)))
  {
    forall i | 0 <= i < |fields| && fields[i].name != "" && fields[i].required
             && !Truthy(Resolve(fields[i].name, fields[i].value, body))
             && (forall j :: 0 <= j < i ==> !InsertFieldFails(fields[j], body))
      ensures InsertOutcome(table, fields, body) == Threw(UserInputError(RequiredMessage(fields[i].name)))
    {
      FirstFailingInsertFieldAt(fields, body, i);
    }
    var out := InsertOutcome(table, fields, body);
    if out.Threw? && out.error.UserInputError? {
      var i := FirstFailingInsertField(fields, body).value;
      assert fields[i].name != "";
    }
  }

  /** Insert throws the plain string "Nothing to insert!" exactly when every
      field is named, optional and resolves to nothing. */
  lemma NothingToInsertIff(table: string, fields: seq<InsertField>, body: Body)
    ensures InsertOutcome(table, fields, body) == Threw(Plain(NothingToInsert))
      <==> forall j :: 0 <= j < |fields| ==>
             fields[j].name != "" && !fields[j].required
             && !Truthy(Resolve(fields[j].name, fields[j].value, body))
  {
    var resolved := InsertResolved(fields, body);
    NothingKept(resolved);
    assert |NoNameInInsert| != |NothingToInsert|;
    var first := FirstFailingInsertField(fields, body);
    if forall j :: 0 <= j < |fields| ==>
         fields[j].name != "" && !fields[j].required
         && !Truthy(Resolve(fields[j].name, fields[j].value, body))
    {
      assert forall j :: 0 <= j < |fields| ==> !InsertFieldFails(fields[j], body);
      assert first.None?;
      assert forall j :: 0 <= j < |resolved| ==> !Truthy(resolved[j]);
    } else if first.None? {
      var j :| 0 <= j < |fields| && !(fields[j].name != "" && !fields[j].required
                && !Truthy(Resolve(fields[j].name, fields[j].value, body)));
      assert !InsertFieldFails(fields[j], body);
      assert Truthy(resolved[j]);
    }
  }

  /** Insert produces a statement exactly when no field fails and at least
      one field resolves to a truthy value. */
  lemma InsertSucceedsIff(table: string, fields: seq<InsertField>, body: Body)
    ensures InsertOutcome(table, fields, body).Statement? <==>
      && (forall j :: 0 <= j < |fields| ==> !InsertFieldFails(fields[j], body))
      && (exists j :: 0 <= j < |fields| && Truthy(Resolve(fields[j].name, fields[j].value, body)))
  {
    var resolved := InsertResolved(fields, body);
    NothingKept(resolved);
    var first := FirstFailingInsertField(fields, body);
    if first.None? {
      if |TruthyIndices(resolved)| != 0 {
        var j :| 0 <= j < |resolved| && Truthy(resolved[j]);
        assert Truthy(Resolve(fields[j].name, fields[j].value, body));
      } else {
        assert forall j :: 0 <= j < |fields| ==> !Truthy(Resolve(fields[j].name, fields[j].value, body)) by {
          forall j | 0 <= j < |fields|
            ensures !Truthy(Resolve(fields[j].name, fields[j].value, body))
          {
            assert resolved[j] == Resolve(fields[j].name, fields[j].value, body);
          }
        }
      }
    }
  }

  /** A successful insert names exactly the fields whose values resolve
      truthy, in field order, binds exactly their resolved values, and its
      values clause is `$1, ..., $n` for n parameters. */
  lemma InsertStatement(table: string, fields: seq<InsertField>, body: Body, kept: seq<nat>)
    requires InsertOutcome(table, fields, body).Statement?
    requires ExactlyTruthy(kept, InsertResolved(fields, body))
    ensures var out := InsertOutcome(table, fields, body);
      && |out.params| == |kept| >= 1
      && out.params == Pick(InsertResolved(fields, body), kept)
      && (forall k :: 0 <= k < |out.params| ==> Truthy(out.params[k]))
      && out.sql == "insert into " + table + " (" + Join(", ", Pick(InsertNames(fields), kept))
                    + ") values (" + Join(", ", Placeholders(|out.params|)) + ")"
  {
    var resolved := InsertResolved(fields, body);
    TruthyIndicesExact(resolved);
    ExactlyTruthyUnique(kept, TruthyIndices(resolved), resolved);
    forall k | 0 <= k < |kept|
      ensures Truthy(resolved[kept[k]])
    {
      assert kept[k] in kept;
    }
  }

  /** With no failing field and a non-empty list of exactly the truthy
      positions, an insert builds the statement over those positions. */
  lemma InsertKept(table: string, fields: seq<InsertField>, body: Body, kept: seq<nat>)
    requires forall j :: 0 <= j < |fields| ==> !InsertFieldFails(fields[j], body)
    requires ExactlyTruthy(kept, InsertResolved(fields, body)) && |kept| > 0
    ensures InsertOutcome(table, fields, body) ==
      Statement(InsertSql(table, Pick(InsertNames(fields), kept)), Pick(InsertResolved(fields, body), kept))
  {
    var resolved := InsertResolved(fields, body);
    assert FirstFailingInsertField(fields, body).None?;
    TruthyIndicesExact(resolved);
    ExactlyTruthyUnique(kept, TruthyIndices(resolved), resolved);
  }

  // ---------------------------------------------------------------------
  // Update
  // ---------------------------------------------------------------------

  /** `name = $<k + 1>`. */
  function Assignment(name: string, k: nat): string {
    name + " = $" + Dec(k + 1)
  }

  function Assignments(columns: seq<string>): seq<string> {
    seq(|columns|, k requires 0 <= k < |columns| => Assignment(columns[k], k))
  }

  /** `a = $1, b = $2, ...`. */
  function SetClause(columns: seq<string>): string {
    Join(", ", Assignments(columns))
  }

  lemma AssignmentsAppend(columns: seq<string>, name: string)
    ensures Assignments(columns + [name]) == Assignments(columns) + [Assignment(name, |columns|)]
  {
    var c' := columns + [name];
    var a, b := Assignments(c'), Assignments(columns) + [Assignment(name, |columns|)];
    forall k | 0 <= k < |a|
      ensures a[k] == b[k]
    {
      if k < |columns| {
        assert c'[k] == columns[k];
      }
    }
  }

  lemma SetClauseStep(head: string, columns: seq<string>, name: string)
    ensures head + SetClause(columns + [name]) ==
      (if |columns| == 0 then head else head + SetClause(columns) + ", ") + (name + " = $" + Dec(|columns| + 1))
  {
    AssignmentsAppend(columns, name);
    JoinStep(head, ", ", Assignments(columns), Assignment(name, |columns|));
  }

  /** The non-empty fragments, in order (`if (spl == "") continue;`). */
  function NonEmpty(fragments: seq<string>): seq<string> {
    if |fragments| == 0 then []
    else
      var init := NonEmpty(fragments[..|fragments| - 1]);
      var last := fragments[|fragments| - 1];
      if last == "" then init else init + [last]
  }

  /** The kept fragments are exactly the non-empty ones. */
  lemma {:induction false} NonEmptyMembers(fragments: seq<string>)
    ensures forall x :: x in NonEmpty(fragments) <==> x in fragments && x != ""
  {
    if |fragments| > 0 {
      var init := fragments[..|fragments| - 1];
      NonEmptyMembers(init);
      assert fragments == init + [fragments[|fragments| - 1]];
    }
  }

  lemma NonEmptyStep(fragments: seq<string>, j: nat)
    requires j < |fragments|
    ensures NonEmpty(fragments[..j + 1]) ==
      NonEmpty(fragments[..j]) + (if fragments[j] == "" then [] else [fragments[j]])
  {
    assert fragments[..j + 1][..j] == fragments[..j];
  }

  /** `idx` lists, in increasing order, exactly the positions of the
      non-empty fragments. */
  ghost predicate ExactlyNonEmpty(idx: seq<nat>, fragments: seq<string>) {
    && (forall k :: 0 <= k < |idx| ==> idx[k] < |fragments|)
    && Increasing(idx)
    && (forall i :: 0 <= i < |fragments| ==> (fragments[i] != "" <==> i in idx))
  }

  /** The positions of the fragments the filter loop splices. */
  function NonEmptyIndices(fragments: seq<string>): (idx: seq<nat>)
    ensures forall k :: 0 <= k < |idx| ==> idx[k] < |fragments|
  {
    if |fragments| == 0 then []
    else
      var init := NonEmptyIndices(fragments[..|fragments| - 1]);
      if fragments[|fragments| - 1] == "" then init else init + [|fragments| - 1]
  }

  lemma {:induction false} NonEmptyIndicesExact(fragments: seq<string>)
    ensures ExactlyNonEmpty(NonEmptyIndices(fragments), fragments)
  {
    if |fragments| > 0 {
      var init := fragments[..|fragments| - 1];
      NonEmptyIndicesExact(init);
      assert forall i :: 0 <= i < |fragments| - 1 ==> init[i] == fragments[i];
    }
  }

  /** The spliced fragments are the fragments at the non-empty positions. */
  lemma {:induction false} NonEmptyPick(fragments: seq<string>)
    ensures NonEmpty(fragments) == Pick(fragments, NonEmptyIndices(fragments))
  {
    if |fragments| > 0 {
      var m := |fragments| - 1;
      var init := fragments[..m];
      NonEmptyPick(init);
      var idx := NonEmptyIndices(init);
      PickPrefix(fragments, m, idx);
      if fragments[m] != "" {
        PickAppend(fragments, idx, m);
      }
    }
  }

  /** The filter loop splices every non-empty fragment exactly once, in
      the order of the filter: `NonEmpty` is the fragments at the
      increasing list of exactly the non-empty positions. */
  lemma NonEmptyInOrder(fragments: seq<string>, idx: seq<nat>)
    requires ExactlyNonEmpty(idx, fragments)
    ensures NonEmpty(fragments) == Pick(fragments, idx)
  {
    var own := NonEmptyIndices(fragments);
    NonEmptyIndicesExact(fragments);
    NonEmptyPick(fragments);
    forall x
      ensures x in idx <==> x in own
    {
      if x in idx {
        var k :| 0 <= k < |idx| && idx[k] == x;
      }
      if x in own {
        var k :| 0 <= k < |own| && own[k] == x;
      }
    }
    IncreasingDetermined(idx, own);
  }

  /** ` <fragment>$<n + j + 1>`. */
  function Spliced(fragment: string, n: nat, j: nat): string {
    " " + fragment + "$" + Dec(n + j + 1)
  }

  function SplicedAll(fragments: seq<string>, n: nat): seq<string> {
    seq(|fragments|, j requires 0 <= j < |fragments| => Spliced(fragments[j], n, j))
  }

  /** The spliced filter: each fragment j (from 0) becomes
      ` <fragment>$<n + j + 1>`, numbering on from the n value placeholders. */
  function FilterClause(fragments: seq<string>, n: nat): string {
    Join("", SplicedAll(fragments, n))
  }

  lemma SplicedAllAppend(fragments: seq<string>, n: nat, x: string)
    ensures SplicedAll(fragments + [x], n) == SplicedAll(fragments, n) + [Spliced(x, n, |fragments|)]
  {
    var f' := fragments + [x];
    var a, b := SplicedAll(f', n), SplicedAll(fragments, n) + [Spliced(x, n, |fragments|)];
    forall j | 0 <= j < |a|
      ensures a[j] == b[j]
    {
      if j < |fragments| {
        assert f'[j] == fragments[j];
      }
    }
  }

  lemma FilterClauseAppend(head: string, fragments: seq<string>, n: nat, x: string)
    ensures head + FilterClause(fragments + [x], n) == head + FilterClause(fragments, n) + Spliced(x, n, |fragments|)
  {
    SplicedAllAppend(fragments, n, x);
    JoinStep(head, "", SplicedAll(fragments, n), Spliced(x, n, |fragments|));
    if |fragments| == 0 {
      assert head + FilterClause(fragments, n) == head;
    } else {
      assert head + FilterClause(fragments, n) + "" == head + FilterClause(fragments, n);
    }
  }

  /** The field loop of `Update` as a recursion: the text and the values
      after scanning fields with names `names` whose values resolved to
      `resolved`, starting from `head`. */
  function SetScan(head: string, names: seq<string>, resolved: seq<Value>): (string, seq<Value>)
    requires |names| == |resolved|
  {
    if |names| == 0 then (head, [])
    else
      var m := |names| - 1;
      var (query, values) := SetScan(head, names[..m], resolved[..m]);
      if Truthy(resolved[m]) then
        ((if |values| > 0 then query + ", " else query) + (names[m] + " = $" + Dec(|values| + 1)),
         values + [resolved[m]])
      else (query, values)
  }

  lemma SetScanStep(head: string, names: seq<string>, resolved: seq<Value>, i: nat)
    requires |names| == |resolved| && i < |names|
    ensures var (query, values) := SetScan(head, names[..i], resolved[..i]);
      SetScan(head, names[..i + 1], resolved[..i + 1]) ==
        if Truthy(resolved[i]) then
          ((if |values| > 0 then query + ", " else query) + (names[i] + " = $" + Dec(|values| + 1)),
           values + [resolved[i]])
        else (query, values)
  {
    assert names[..i + 1][..i] == names[..i] && resolved[..i + 1][..i] == resolved[..i];
  }

  lemma PickPrefix<T>(xs: seq<T>, m: nat, idx: seq<nat>)
    requires m <= |xs|
    requires forall k :: 0 <= k < |idx| ==> idx[k] < m
    ensures Pick(xs[..m], idx) == Pick(xs, idx)
  {
  }

  /** One truthy field extends the SET clause by its assignment and the
      values by its value. */
  lemma SetScanTruthyStep(head: string, names: seq<string>, resolved: seq<Value>, kept: seq<nat>)
    requires |names| == |resolved| > 0 && Truthy(resolved[|names| - 1])
    requires forall k :: 0 <= k < |kept| ==> kept[k] < |names| - 1
    requires SetScan(head, names[..|names| - 1], resolved[..|names| - 1])
      == (head + SetClause(Pick(names, kept)), Pick(resolved, kept))
    ensures var m := |names| - 1;
      SetScan(head, names, resolved)
        == (head + SetClause(Pick(names, kept) + [names[m]]), Pick(resolved, kept) + [resolved[m]])
  {
    var m := |names| - 1;
    SetClauseStep(head, Pick(names, kept), names[m]);
    if |kept| == 0 {
      assert Assignments(Pick(names, kept)) == [];
    }
    var (q, vs) := SetScan(head, names[..m], resolved[..m]);
    assert q == head + SetClause(Pick(names, kept)) && vs == Pick(resolved, kept);
    assert |vs| == |Pick(names, kept)|;
    assert SetScan(head, names, resolved).1 == vs + [resolved[m]];
    assert SetScan(head, names, resolved).0 == head + SetClause(Pick(names, kept) + [names[m]]);
  }

  /** The field loop appends the SET clause of the truthy fields and
      collects their values. */
  lemma {:induction false} SetScanClause(head: string, names: seq<string>, resolved: seq<Value>)
    requires |names| == |resolved|
    ensures var kept := TruthyIndices(resolved);
      SetScan(head, names, resolved) == (head + SetClause(Pick(names, kept)), Pick(resolved, kept))
  {
    if |names| == 0 {
      assert Pick(names, []) == [] && Pick(resolved, []) == [];
      assert Assignments([]) == [];
      assert head + "" == head;
    } else {
      var m := |names| - 1;
      SetScanClause(head, names[..m], resolved[..m]);
      var kept := TruthyIndices(resolved[..m]);
      PickPrefix(resolved, m, kept);
      PickPrefix(names, m, kept);
      TruthyIndicesStep(resolved, m);
      assert resolved[..m + 1] == resolved;
      if Truthy(resolved[m]) {
        KeepField(resolved, names, kept, m);
        SetScanTruthyStep(head, names, resolved, kept);
      }
    }
  }

  /** The filter loop of `Update` as a recursion on the fragments: the text
      and the placeholder counter after scanning `fragments`. */
  function FilterScan(head: string, fragments: seq<string>, n: nat): (string, nat) {
    if |fragments| == 0 then (head, n)
    else
      var (query, i) := FilterScan(head, fragments[..|fragments| - 1], n);
      var fragment := fragments[|fragments| - 1];
      if fragment == "" then (query, i)
      else (query + (" " + fragment + "$" + Dec(i + 1)), i + 1)
  }

  lemma FilterScanStep(head: string, fragments: seq<string>, n: nat, j: nat)
    requires j < |fragments|
    ensures var (query, i) := FilterScan(head, fragments[..j], n);
      FilterScan(head, fragments[..j + 1], n) ==
        if fragments[j] == "" then (query, i) else (query + (" " + fragments[j] + "$" + Dec(i + 1)), i + 1)
  {
    assert fragments[..j + 1][..j] == fragments[..j];
  }

  /** The filter loop appends the spliced non-empty fragments and counts them. */
  lemma {:induction false} FilterScanClause(head: string, fragments: seq<string>, n: nat)
    ensures FilterScan(head, fragments, n) ==
      (head + FilterClause(NonEmpty(fragments), n), n + |NonEmpty(fragments)|)
  {
    if |fragments| == 0 {
      assert head + FilterClause([], n) == head;
    } else {
      var m := |fragments| - 1;
      FilterScanClause(head, fragments[..m], n);
      NonEmptyStep(fragments, m);
      assert fragments[..m + 1] == fragments;
      if fragments[m] != "" {
        FilterClauseAppend(head, NonEmpty(fragments[..m]), n, fragments[m]);
      }
    }
  }

  predicate HasUnnamedField(fields: seq<UpdateField>) {
    exists i :: 0 <= i < |fields| && fields[i].name == ""
  }

  /** What `Update` does, stated without its loops. */
  function UpdateOutcome(table: string, fields: seq<UpdateField>, filter: string,
                         filterValues: seq<Value>, body: Body): Built
  {
    if HasUnnamedField(fields) then Threw(Plain(NoNameInUpdate))
    else
      var resolved := UpdateResolved(fields, body);
      var kept := TruthyIndices(resolved);
      if |kept| == 0 then Threw(UserInputError(NoValuesToUpdate))
      else
        Statement("update " + table + " set " + SetClause(Pick(UpdateNames(fields), kept))
                    + FilterClause(NonEmpty(Split(filter, '$')), |kept|),
                  Pick(resolved, kept) + filterValues)
  }

  /** A field without a name makes the update throw, whatever else. */
  lemma UpdateFailsOnUnnamedField(table: string, fields: seq<UpdateField>, filter: string,
                                  filterValues: seq<Value>, body: Body, i: nat)
    requires i < |fields| && fields[i].name == ""
    ensures UpdateOutcome(table, fields, filter, filterValues, body) == Threw(Plain(NoNameInUpdate))
  {
  }

  /** With every field named, `UpdateOutcome` is what the two loops of
      `Update` compute, scanned one field and one fragment at a time. */
  lemma UpdateOutcomeByScans(table: string, fields: seq<UpdateField>, filter: string,
                             filterValues: seq<Value>, body: Body)
    requires forall j :: 0 <= j < |fields| ==> fields[j].name != ""
    ensures var (query, values) := SetScan("update " + table + " set ", UpdateNames(fields), UpdateResolved(fields, body));
      UpdateOutcome(table, fields, filter, filterValues, body) ==
        if |values| == 0 then Threw(UserInputError(NoValuesToUpdate))
        else Statement(FilterScan(query, Split(filter, '$'), |values|).0, values + filterValues)
  {
    var resolved := UpdateResolved(fields, body);
    SetScanClause("update " + table + " set ", UpdateNames(fields), resolved);
    var query := "update " + table + " set " + SetClause(Pick(UpdateNames(fields), TruthyIndices(resolved)));
    FilterScanClause(query, Split(filter, '$'), |TruthyIndices(resolved)|);
  }

  /** The filter loop of `Update`: appends ` <fragment>$<i>` for each
      non-empty fragment, `i` counting on from the `n` values already bound. */
  method SpliceFilter(query: string, n: nat, splitFilter: seq<string>) returns (spliced: string)
    ensures spliced == FilterScan(query, splitFilter, n).0
  {
    spliced := query;
    var i := n;
    var j := 0;
    while j < |splitFilter|
      invariant 0 <= j <= |splitFilter|
      invariant (spliced, i) == FilterScan(query, splitFilter[..j], n)
    {
      var spl := splitFilter[j];
      FilterScanStep(query, splitFilter, n, j);
      j := j + 1;
      if spl == "" {
        continue;
      }
      i := i + 1;
      spliced := spliced + (" " + spl + "$" + Dec(i));
    }
    assert splitFilter[..|splitFilter|] == splitFilter;
  }

  /** The update builder: the source's field loop and filter loop, reusing
      the counter `i` as the running placeholder number. */
  method Update(table: string, fields: seq<UpdateField>, filter: string,
                filterValues: seq<Value>, body: Body) returns (r: Built)
    ensures r == UpdateOutcome(table, fields, filter, filterValues, body)
  {
    var query := "update " + table + " set ";
    var values: seq<Value> := [];
    ghost var prefix := query;
    ghost var resolved := UpdateResolved(fields, body);
    ghost var names := UpdateNames(fields);
    var i := 0;
    while i < |fields|
      invariant 0 <= i <= |fields|
      invariant forall j :: 0 <= j < i ==> fields[j].name != ""
      invariant (query, values) == SetScan(prefix, names[..i], resolved[..i])
    {
      var name, value := fields[i].name, fields[i].value;
      if name == "" {
        UpdateFailsOnUnnamedField(table, fields, filter, filterValues, body, i);
        r := Threw(Plain(NoNameInUpdate));
        return;
      }
      if !Truthy(value) {
        value := Lookup(body, name);
      }
      assert value == resolved[i] && name == names[i];
      SetScanStep(prefix, names, resolved, i);
      if Truthy(value) {
        values := values + [value];
        if |values| > 1 {
          query := query + ", ";
        }
        query := query + (name + " = $" + Dec(|values|));
      }
      i := i + 1;
    }
    assert names[..|fields|] == names && resolved[..|fields|] == resolved;
    UpdateOutcomeByScans(table, fields, filter, filterValues, body);
    if |values| == 0 {
      r := Threw(UserInputError(NoValuesToUpdate));
      return;
    }
    var splitFilter := Split(filter, '$');
    if |splitFilter| > 0 {
      query := SpliceFilter(query, |values|, splitFilter);
      values := values + filterValues;
    }
    r := Statement(query, values);
  }

  /** Update's three outcomes: a field without a name throws a plain string;
      otherwise no resolved value throws `UserInputError`; otherwise it
      builds a statement. */
  lemma UpdateOutcomes(table: string, fields: seq<UpdateField>, filter: string,
                       filterValues: seq<Value>, body: Body)
    ensures UpdateOutcome(table, fields, filter, filterValues, body) == Threw(Plain(NoNameInUpdate))
      <==> exists i :: 0 <= i < |fields| && fields[i].name == ""
    ensures UpdateOutcome(table, fields, filter, filterValues, body) == Threw(UserInputError(NoValuesToUpdate))
      <==> forall i :: 0 <= i < |fields| ==>
             fields[i].name != "" && !Truthy(Resolve(fields[i].name, fields[i].value, body))
    ensures UpdateOutcome(table, fields, filter, filterValues, body).Statement?
      <==> ((forall i :: 0 <= i < |fields| ==> fields[i].name != "")
             && (exists i :: 0 <= i < |fields| && Truthy(Resolve(fields[i].name, fields[i].value, body))))
  {
    var resolved := UpdateResolved(fields, body);
    NothingKept(resolved);
    if !HasUnnamedField(fields) {
      if |TruthyIndices(resolved)| != 0 {
        var j :| 0 <= j < |resolved| && Truthy(resolved[j]);
        assert Truthy(Resolve(fields[j].name, fields[j].value, body));
      } else {
        assert forall j :: 0 <= j < |fields| ==> !Truthy(Resolve(fields[j].name, fields[j].value, body)) by {
          forall j | 0 <= j < |fields|
            ensures !Truthy(Resolve(fields[j].name, fields[j].value, body))
          {
            assert resolved[j] == Resolve(fields[j].name, fields[j].value, body);
          }
        }
      }
    }
  }

  /** A successful update sets exactly the fields whose values resolve
      truthy, in field order, as `name_k = $k` for k = 1..n; the filter's
      placeholders are numbered after them from n + 1, and the parameters
      are the resolved values followed by the filter values. */
  lemma UpdateStatement(table: string, fields: seq<UpdateField>, filter: string,
                        filterValues: seq<Value>, body: Body, kept: seq<nat>)
    requires UpdateOutcome(table, fields, filter, filterValues, body).Statement?
    requires ExactlyTruthy(kept, UpdateResolved(fields, body))
    ensures var out := UpdateOutcome(table, fields, filter, filterValues, body);
      && |kept| >= 1
      && out.params == Pick(UpdateResolved(fields, body), kept) + filterValues
      && out.params[|kept|..] == filterValues
      && out.sql == "update " + table + " set " + SetClause(Pick(UpdateNames(fields), kept))
                    + FilterClause(NonEmpty(Split(filter, '$')), |kept|)
  {
    var resolved := UpdateResolved(fields, body);
    TruthyIndicesExact(resolved);
    ExactlyTruthyUnique(kept, TruthyIndices(resolved), resolved);
  }

  /** With every field named and a non-empty list of exactly the truthy
      positions, an update builds the statement over those positions. */
  lemma UpdateKept(table: string, fields: seq<UpdateField>, filter: string,
                   filterValues: seq<Value>, body: Body, kept: seq<nat>)
    requires forall j :: 0 <= j < |fields| ==> fields[j].name != ""
    requires ExactlyTruthy(kept, UpdateResolved(fields, body)) && |kept| > 0
    ensures UpdateOutcome(table, fields, filter, filterValues, body) ==
      Statement("update " + table + " set " + SetClause(Pick(UpdateNames(fields), kept))
                  + FilterClause(NonEmpty(Split(filter, '$')), |kept|),
                Pick(UpdateResolved(fields, body), kept) + filterValues)
  {
    var resolved := UpdateResolved(fields, body);
    TruthyIndicesExact(resolved);
    ExactlyTruthyUnique(kept, TruthyIndices(resolved), resolved);
  }

  lemma OneAssignment(a: string)
    ensures SetClause([a]) == Assignment(a, 0)
  {
    assert Assignments([a]) == [Assignment(a, 0)];
  }

  lemma TwoAssignments(a: string, b: string)
    ensures SetClause([a, b]) == Assignment(a, 0) + ", " + Assignment(b, 1)
  {
    assert Assignments([a, b]) == [Assignment(a, 0)] + [Assignment(b, 1)];
    JoinAppend(", ", [Assignment(a, 0)], Assignment(b, 1));
  }

  /** A fragment list whose pieces are all non-empty is kept whole. */
  lemma NonEmptyOfNonEmpty(fragments: seq<string>)
    requires forall k :: 0 <= k < |fragments| ==> fragments[k] != ""
    ensures NonEmpty(fragments) == fragments
  {
    if |fragments| > 0 {
      NonEmptyOfNonEmpty(fragments[..|fragments| - 1]);
      assert fragments[..|fragments| - 1] + [fragments[|fragments| - 1]] == fragments;
    }
  }

  /** The filter template the routes use, text followed by one `$`, becomes
      that text with the next placeholder number. */
  lemma OneMarkerFilter(text: string, n: nat)
    requires text != "" && '$' !in text
    ensures FilterClause(NonEmpty(Split(text + "$", '$')), n) == " " + text + "$" + Dec(n + 1)
  {
    SplitWithoutSeparator(text, '$');
    assert text + "$" == text + ['$'] + "";
    SplitAfterSeparator(text, '$', "");
    var pieces := [text, ""];
    NonEmptyStep(pieces, 0);
    NonEmptyStep(pieces, 1);
    assert pieces[..2] == pieces && pieces[..0] == [];
    FilterClauseAppend("", [], n, text);
  }

  /** Text after the last `$` is a fragment too, so it also receives a
      placeholder: `<a>$<b>` yields ` <a>$<n+1> <b>$<n+2>`. */
  lemma TrailingTextGetsPlaceholder(a: string, b: string, n: nat)
    requires a != "" && b != "" && '$' !in a && '$' !in b
    ensures FilterClause(NonEmpty(Split(a + "$" + b, '$')), n)
         == " " + a + "$" + Dec(n + 1) + (" " + b + "$" + Dec(n + 2))
  {
    SplitWithoutSeparator(a, '$');
    SplitAfterSeparator(a, '$', b);
    assert a + "$" + b == a + ['$'] + b;
    NonEmptyOfNonEmpty([a, b]);
    FilterClauseAppend("", [], n, a);
    FilterClauseAppend("", [a], n, b);
    assert [a] + [b] == [a, b];
    assert "" + FilterClause([a], n) == FilterClause([a], n);
    assert "" + FilterClause([a, b], n) == FilterClause([a, b], n);
  }
}
