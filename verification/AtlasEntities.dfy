/** The validation of an Atlas entity file, and the paginated searches of the quality gates. */
module AtlasEntities {
  import opened Prelude
  import opened PythonText

  /** A value of the file: null, a string, or anything else with its text and truth value. */
  datatype Json = Null | Str(s: string) | Other(text: string, truthy: bool) {
    predicate Truthy() {
      match this
      case Null => false
      case Str(s) => s != []
      case Other(_, b) => b
    }

    /** str(...) */
    function Text(): string {
      match this
      case Null => "None"
      case Str(s) => s
      case Other(t, _) => t
    }

    /** The trimmed string, when there is one and it is not blank. */
    function NonBlank(): Option<string> {
      if Str? && Strip(s) != [] then Some(Strip(s)) else None
    }
  }

  /** `dbName` is relationshipAttributes.db.uniqueAttributes.qualifiedName, null when the path breaks. */
  datatype Entity = Entity(typeName: Json, attributes: map<string, Json>, dbName: Json) {
    function Get(name: string): Json {
      if name in attributes then attributes[name] else Null
    }
  }

  datatype Error =
    | NoType(i: nat)
    | NoName(i: nat)
    | Duplicate(typeName: string, name: string)
    | NoAttribute(i: nat, attribute: string)
    | NoDatabase(i: nat)
    | UnknownDatabase(i: nat, name: string)

  function QualifiedNameKey(e: Entity): Option<string> {
    e.Get("qualifiedName").NonBlank()
  }

  function RequiredAttributes(typeName: string): (names: seq<string>)
    ensures forall i, j :: 0 <= i < j < |names| ==> names[i] != names[j]
  {
    if typeName == "Process" then ["name", "qualifiedName"]
    else if typeName == "kafka_topic" then ["name", "topic", "qualifiedName", "uri"]
    else if typeName == "hive_db" then ["name", "qualifiedName", "clusterName"]
    else if typeName == "hive_table" then ["name", "qualifiedName"]
    else []
  }

  /** Absent, null or a blank string; a number or a list counts as present, empty or not. */
  predicate Missing(v: Json) {
    v.Null? || (v.Str? && Strip(v.s) == [])
  }

  // ----- What is wrong with a file -----

  predicate IsNamed(es: seq<Entity>, i: int, typeName: string, name: string) {
    0 <= i < |es| && es[i].typeName.Truthy() && es[i].typeName.Text() == typeName
    && QualifiedNameKey(es[i]) == Some(name)
  }

  predicate Declared(es: seq<Entity>, name: string) {
    exists i :: 0 <= i < |es| && es[i].typeName.Text() == "hive_db" && QualifiedNameKey(es[i]) == Some(name)
  }

  /** What the pass over types, names and attributes finds wrong at entity i. */
  predicate FaultAt(es: seq<Entity>, i: nat, e: Error)
    requires i < |es|
  {
    match e
    case NoType(j) => j == i && !es[i].typeName.Truthy()
    case NoName(j) => j == i && es[i].typeName.Truthy() && QualifiedNameKey(es[i]).None?
    case Duplicate(t, q) => RepeatAt(es, i, t, q)
    case NoAttribute(j, a) =>
      j == i && es[i].typeName.Truthy() && a in RequiredAttributes(es[i].typeName.Text()) && Missing(es[i].Get(a))
    case _ => false
  }

  predicate EntityFault(es: seq<Entity>, n: nat, e: Error)
    requires n <= |es|
  {
    exists i :: 0 <= i < n && FaultAt(es, i, e)
  }

  /** Entity j has the type and name of an earlier one. */
  predicate RepeatAt(es: seq<Entity>, j: nat, t: string, q: string) {
    IsNamed(es, j, t, q) && exists i :: 0 <= i < j && IsNamed(es, i, t, q)
  }

  /** What the pass over the references of tables to databases finds wrong at entity i. */
  predicate ReferenceFaultAt(es: seq<Entity>, i: nat, e: Error)
    requires i < |es|
  {
    match e
    case NoDatabase(j) => j == i && es[i].typeName.Text() == "hive_table" && es[i].dbName.NonBlank().None?
    case UnknownDatabase(j, q) =>
      j == i && es[i].typeName.Text() == "hive_table" && es[i].dbName.NonBlank() == Some(q) && !Declared(es, q)
    case _ => false
  }

  predicate ReferenceFault(es: seq<Entity>, n: nat, e: Error)
    requires n <= |es|
  {
    exists i :: 0 <= i < n && ReferenceFaultAt(es, i, e)
  }

  /** A file that may be published. */
  ghost predicate Valid(es: seq<Entity>) {
    && (forall i :: 0 <= i < |es| ==> es[i].typeName.Truthy() && QualifiedNameKey(es[i]).Some?)
    && (forall i, j :: 0 <= i < j < |es| ==>
          (es[i].typeName.Text(), QualifiedNameKey(es[i])) != (es[j].typeName.Text(), QualifiedNameKey(es[j])))
    && (forall i, a :: 0 <= i < |es| && a in RequiredAttributes(es[i].typeName.Text()) ==> !Missing(es[i].Get(a)))
    && (forall i :: 0 <= i < |es| && es[i].typeName.Text() == "hive_table" ==> RefersToDeclared(es, i))
  }

  predicate RefersToDeclared(es: seq<Entity>, i: nat)
    requires i < |es|
  {
    es[i].dbName.NonBlank().Some? && Declared(es, es[i].dbName.NonBlank().value)
  }

  /** Text between white space. */
  ghost predicate Between(q: string, s: string) {
    exists a, b :: Spaces(a) && Spaces(b) && s == a + q + b
  }

  /** The string without the white space around it, when something is left of it. */
  lemma NonBlankExactly(v: Json, q: string)
    ensures v.NonBlank() == Some(q) <==>
            v.Str? && q != [] && !IsSpace(q[0]) && !IsSpace(q[|q| - 1]) && Between(q, v.s)
  {
    if v.Str? {
      var a, b := StripKeepsCore(v.s);
      if q != [] && !IsSpace(q[0]) && !IsSpace(q[|q| - 1]) && Between(q, v.s) {
        var x, y :| Spaces(x) && Spaces(y) && v.s == x + q + y;
        StripOfPadded(x, q, y);
      }
    }
  }

  /** The qualified name is what that leaves of the attribute. */
  lemma QualifiedNameExactly(e: Entity, q: string)
    ensures QualifiedNameKey(e) == Some(q) <==>
            && "qualifiedName" in e.attributes && e.attributes["qualifiedName"].Str?
            && q != [] && !IsSpace(q[0]) && !IsSpace(q[|q| - 1]) && Between(q, e.attributes["qualifiedName"].s)
  {
    NonBlankExactly(e.Get("qualifiedName"), q);
  }

  /** The type is the text, or something that is written so. */
  predicate TypeIs(v: Json, name: string) {
    v == Str(name) || (v.Other? && v.text == name)
  }

  predicate NoTypeGiven(v: Json) {
    v == Null || v == Str("") || (v.Other? && !v.truthy)
  }

  /** An attribute is reported missing exactly for a typed entity whose type requires it, when it is absent,
      null, or a string of white space; and the type exactly when it is absent, null, empty or zero. */
  lemma AttributeFaultExactly(es: seq<Entity>, i: nat, a: string)
    requires i < |es|
    ensures FaultAt(es, i, NoType(i)) <==> NoTypeGiven(es[i].typeName)
    ensures FaultAt(es, i, NoAttribute(i, a)) <==>
            && !NoTypeGiven(es[i].typeName)
            && Requires(es[i].typeName, a)
            && (a !in es[i].attributes || es[i].attributes[a].Null? ||
                (es[i].attributes[a].Str? && Spaces(es[i].attributes[a].s)))
  {
    if a in es[i].attributes && es[i].attributes[a].Str? {
      StripsToNothing(es[i].attributes[a].s);
    }
  }

  predicate Requires(v: Json, a: string) {
    || (TypeIs(v, "Process") && (a == "name" || a == "qualifiedName"))
    || (TypeIs(v, "kafka_topic") && (a == "name" || a == "topic" || a == "qualifiedName" || a == "uri"))
    || (TypeIs(v, "hive_db") && (a == "name" || a == "qualifiedName" || a == "clusterName"))
    || (TypeIs(v, "hive_table") && (a == "name" || a == "qualifiedName"))
  }

  /** A table is reported exactly when its reference is no string with a name in it, or when no hive_db has
      this name as its qualified name. */
  lemma ReferenceFaultExactly(es: seq<Entity>, i: nat, q: string)
    requires i < |es|
    ensures ReferenceFaultAt(es, i, NoDatabase(i)) <==>
            TypeIs(es[i].typeName, "hive_table") && !(es[i].dbName.Str? && !Spaces(es[i].dbName.s))
    ensures ReferenceFaultAt(es, i, UnknownDatabase(i, q)) <==>
            && TypeIs(es[i].typeName, "hive_table")
            && es[i].dbName.Str? && q != [] && !IsSpace(q[0]) && !IsSpace(q[|q| - 1]) && Between(q, es[i].dbName.s)
            && forall j :: 0 <= j < |es| && TypeIs(es[j].typeName, "hive_db") ==> QualifiedNameKey(es[j]) != Some(q)
  {
    NonBlankExactly(es[i].dbName, q);
    if es[i].dbName.Str? {
      StripsToNothing(es[i].dbName.s);
    }
    IsDeclaredExactly(es, q);
  }

  lemma IsDeclaredExactly(es: seq<Entity>, q: string)
    ensures Declared(es, q) <==>
            exists j :: 0 <= j < |es| && TypeIs(es[j].typeName, "hive_db") && QualifiedNameKey(es[j]) == Some(q)
  {
  }

  lemma FaultFreeIsValid(es: seq<Entity>)
    requires forall i, e :: 0 <= i < |es| ==> !FaultAt(es, i, e) && !ReferenceFaultAt(es, i, e)
    ensures Valid(es)
  {
    forall i | 0 <= i < |es|
      ensures es[i].typeName.Truthy() && QualifiedNameKey(es[i]).Some?
      ensures es[i].typeName.Text() == "hive_table" ==> RefersToDeclared(es, i)
    {
      assert !FaultAt(es, i, NoType(i)) && !FaultAt(es, i, NoName(i)) && !ReferenceFaultAt(es, i, NoDatabase(i));
      var d := es[i].dbName.NonBlank();
      assert d.Some? ==> !ReferenceFaultAt(es, i, UnknownDatabase(i, d.value));
    }
    forall i, a | 0 <= i < |es| && a in RequiredAttributes(es[i].typeName.Text()) ensures !Missing(es[i].Get(a)) {
      assert !FaultAt(es, i, NoAttribute(i, a));
    }
    forall i, j | 0 <= i < j < |es|
      ensures (es[i].typeName.Text(), QualifiedNameKey(es[i])) != (es[j].typeName.Text(), QualifiedNameKey(es[j]))
    {
      var t, q := es[j].typeName.Text(), QualifiedNameKey(es[j]).value;
      assert !FaultAt(es, j, Duplicate(t, q));
      assert IsNamed(es, j, t, q) && !IsNamed(es, i, t, q);
    }
  }

  lemma ValidIsFaultFree(es: seq<Entity>, i: nat, e: Error)
    requires Valid(es) && i < |es|
    ensures !FaultAt(es, i, e) && !ReferenceFaultAt(es, i, e)
  {
    assert RefersToDeclared(es, i) || es[i].typeName.Text() != "hive_table";
    if e.Duplicate? {
      forall j | 0 <= j < i ensures !(IsNamed(es, j, e.typeName, e.name) && IsNamed(es, i, e.typeName, e.name)) {
        assert (es[j].typeName.Text(), QualifiedNameKey(es[j])) != (es[i].typeName.Text(), QualifiedNameKey(es[i]));
      }
    }
  }

  lemma ValidExactly(es: seq<Entity>)
    ensures Valid(es) <==> forall e :: !EntityFault(es, |es|, e) && !ReferenceFault(es, |es|, e)
  {
    if Valid(es) {
      forall i, e | 0 <= i < |es| ensures !FaultAt(es, i, e) && !ReferenceFaultAt(es, i, e) {
        ValidIsFaultFree(es, i, e);
      }
    }
    if forall e :: !EntityFault(es, |es|, e) && !ReferenceFault(es, |es|, e) {
      forall i, e | 0 <= i < |es| ensures !FaultAt(es, i, e) && !ReferenceFaultAt(es, i, e) {
        assert !EntityFault(es, |es|, e) && !ReferenceFault(es, |es|, e);
      }
      FaultFreeIsValid(es);
    }
  }

  // ----- How often a fault is reported -----

  /** How many of the first n entities have this type and name. */
  function Named(es: seq<Entity>, n: nat, t: string, q: string): nat {
    if n == 0 then 0 else Named(es, n - 1, t, q) + if IsNamed(es, n - 1, t, q) then 1 else 0
  }

  /** A name is reported for each entity but the first that has it, any other fault once. */
  function TimesReported(es: seq<Entity>, n: nat, e: Error): nat
    requires n <= |es|
  {
    match e
    case Duplicate(t, q) => var k := Named(es, n, t, q); if k == 0 then 0 else k - 1
    case _ => if EntityFault(es, n, e) || ReferenceFault(es, n, e) then 1 else 0
  }

  lemma {:induction false} NamedByOne(es: seq<Entity>, n: nat, t: string, q: string)
    ensures Named(es, n, t, q) > 0 <==> exists j :: 0 <= j < n && IsNamed(es, j, t, q)
  {
    if n > 0 {
      NamedByOne(es, n - 1, t, q);
    }
  }

  lemma FaultNext(es: seq<Entity>, n: nat, e: Error)
    requires n < |es|
    ensures EntityFault(es, n + 1, e) <==> EntityFault(es, n, e) || FaultAt(es, n, e)
    ensures ReferenceFault(es, n + 1, e) <==> ReferenceFault(es, n, e) || ReferenceFaultAt(es, n, e)
  {
  }

  /** Entity n adds a report of e exactly when it has the fault e. */
  lemma ReportedByNext(es: seq<Entity>, n: nat, e: Error)
    requires n < |es|
    ensures TimesReported(es, n + 1, e) ==
            TimesReported(es, n, e) + if FaultAt(es, n, e) || ReferenceFaultAt(es, n, e) then 1 else 0
  {
    if e.Duplicate? {
      NamedByOne(es, n, e.typeName, e.name);
    } else {
      FaultNext(es, n, e);
    }
  }

  lemma {:induction false} RepeatedByTwo(es: seq<Entity>, n: nat, t: string, q: string)
    ensures Named(es, n, t, q) > 1 <==> exists j :: 0 <= j < n && RepeatAt(es, j, t, q)
  {
    if n > 0 {
      RepeatedByTwo(es, n - 1, t, q);
      NamedByOne(es, n - 1, t, q);
      assert RepeatAt(es, n - 1, t, q) <==> IsNamed(es, n - 1, t, q) && Named(es, n - 1, t, q) > 0;
    }
  }

  /** Every fault is reported, and nothing else. */
  lemma ReportedExactly(es: seq<Entity>, n: nat, e: Error)
    requires n <= |es|
    ensures TimesReported(es, n, e) > 0 <==> EntityFault(es, n, e) || ReferenceFault(es, n, e)
  {
    if e.Duplicate? {
      RepeatedByTwo(es, n, e.typeName, e.name);
      forall j | 0 <= j < n ensures FaultAt(es, j, e) <==> RepeatAt(es, j, e.typeName, e.name) {}
      if j :| 0 <= j < n && RepeatAt(es, j, e.typeName, e.name) {
        assert FaultAt(es, j, e);
      }
    }
  }

  /** The errors of each pass. */
  predicate OfReferences(e: Error) {
    e.NoDatabase? || e.UnknownDatabase?
  }

  /** The list holds each error as often as it is to be reported for the first n entities. */
  ghost predicate Reports(errors: seq<Error>, es: seq<Entity>, n: nat, m: nat)
    requires n <= |es| && m <= |es|
  {
    forall e :: multiset(errors)[e] == TimesReported(es, if OfReferences(e) then m else n, e)
  }

  lemma ReportsFirst(errors: seq<Error>, found: seq<Error>, es: seq<Entity>, n: nat)
    requires n < |es| && Reports(errors, es, n, 0)
    requires forall e :: multiset(found)[e] == if FaultAt(es, n, e) then 1 else 0
    ensures Reports(errors + found, es, n + 1, 0)
  {
    forall e ensures multiset(errors + found)[e] == TimesReported(es, if OfReferences(e) then 0 else n + 1, e) {
      assert multiset(errors + found)[e] == multiset(errors)[e] + multiset(found)[e];
      ReportedByNext(es, n, e);
    }
  }

  lemma ReportsSecond(errors: seq<Error>, found: seq<Error>, es: seq<Entity>, m: nat)
    requires m < |es| && Reports(errors, es, |es|, m)
    requires forall e :: multiset(found)[e] == if ReferenceFaultAt(es, m, e) then 1 else 0
    ensures Reports(errors + found, es, |es|, m + 1)
  {
    forall e
      ensures multiset(errors + found)[e] == TimesReported(es, if OfReferences(e) then m + 1 else |es|, e)
    {
      assert multiset(errors + found)[e] == multiset(errors)[e] + multiset(found)[e];
      ReportedByNext(es, m, e);
    }
  }

  /** All reported: what is in the list, and when it is empty. */
  lemma AllReported(errors: seq<Error>, es: seq<Entity>)
    requires Reports(errors, es, |es|, |es|)
    ensures forall e :: multiset(errors)[e] == TimesReported(es, |es|, e)
    ensures forall e :: e in errors <==> EntityFault(es, |es|, e) || ReferenceFault(es, |es|, e)
    ensures errors == [] <==> Valid(es)
  {
    forall e ensures e in errors <==> EntityFault(es, |es|, e) || ReferenceFault(es, |es|, e) {
      assert e in errors <==> multiset(errors)[e] > 0;
      ReportedExactly(es, |es|, e);
    }
    ValidExactly(es);
    assert errors != [] ==> errors[0] in errors;
  }

  // ----- validate_entities -----

  /** The names seen in the first n entities, with their types. */
  ghost predicate SeenUpTo(es: seq<Entity>, n: nat, seen: set<(string, string)>) {
    forall t, q :: (t, q) in seen <==> exists j :: 0 <= j < n && IsNamed(es, j, t, q)
  }

  /** The required attributes, first to last, that the entity lacks. */
  method CheckAttributes(ent: Entity, i: nat, reqs: seq<string>) returns (found: seq<Error>)
    requires forall j, k :: 0 <= j < k < |reqs| ==> reqs[j] != reqs[k]
    ensures forall e :: multiset(found)[e] ==
              if e.NoAttribute? && e.i == i && e.attribute in reqs && Missing(ent.Get(e.attribute)) then 1 else 0
  {
    found := [];
    for k := 0 to |reqs|
      invariant forall e :: multiset(found)[e] ==
                  if e.NoAttribute? && e.i == i && e.attribute in reqs[..k] && Missing(ent.Get(e.attribute))
                  then 1 else 0
    {
      assert reqs[..k + 1] == reqs[..k] + [reqs[k]] && reqs[k] !in reqs[..k];
      if Missing(ent.Get(reqs[k])) {
        found := found + [NoAttribute(i, reqs[k])];
      }
    }
    assert reqs[..|reqs|] == reqs;
  }

  /** The error of the name, with the errors of the attributes. */
  lemma JoinFaults(es: seq<Entity>, i: nat, named: seq<Error>, missing: seq<Error>)
    requires i < |es| && es[i].typeName.Truthy()
    requires forall e :: multiset(named)[e] == if FaultAt(es, i, e) && !e.NoAttribute? then 1 else 0
    requires forall e :: multiset(missing)[e] ==
               if e.NoAttribute? && e.i == i && e.attribute in RequiredAttributes(es[i].typeName.Text())
                  && Missing(es[i].Get(e.attribute)) then 1 else 0
    ensures forall e :: multiset(named + missing)[e] == if FaultAt(es, i, e) then 1 else 0
  {
    forall e ensures multiset(named + missing)[e] == if FaultAt(es, i, e) then 1 else 0 {
      assert multiset(named + missing)[e] == multiset(named)[e] + multiset(missing)[e];
    }
  }

  /** The body of the first loop: one error for each fault of the entity. */
  method CheckEntity(entities: seq<Entity>, i: nat, seen: set<(string, string)>)
    returns (found: seq<Error>, seen': set<(string, string)>)
    requires i < |entities| && SeenUpTo(entities, i, seen)
    ensures forall e :: multiset(found)[e] == if FaultAt(entities, i, e) then 1 else 0
    ensures SeenUpTo(entities, i + 1, seen')
  {
    var ent := entities[i];
    var tn := ent.typeName;
    found, seen' := [], seen;
    if !tn.Truthy() {
      return [NoType(i)], seen;
    }
    var qn := QualifiedNameKey(ent);
    if qn.None? {
      found := [NoName(i)];
    } else {
      var key := (tn.Text(), qn.value);
      assert IsNamed(entities, i, tn.Text(), qn.value);
      if key in seen {
        found := [Duplicate(tn.Text(), qn.value)];
      }
      seen' := seen + {key};
    }
    var missing := CheckAttributes(ent, i, RequiredAttributes(tn.Text()));
    JoinFaults(entities, i, found, missing);
    found := found + missing;
  }

  /** The second loop: the databases the file declares, wherever they stand. */
  method DeclaredDatabases(entities: seq<Entity>) returns (names: set<string>)
    ensures forall q :: q in names <==> Declared(entities, q)
  {
    names := {};
    for i := 0 to |entities|
      invariant forall q :: q in names <==> Declared(entities[..i], q)
    {
      assert entities[..i + 1] == entities[..i] + [entities[i]];
      var e := entities[i];
      var hq := QualifiedNameKey(e);
      if e.typeName.Text() == "hive_db" && hq.Some? {
        names := names + {hq.value};
        assert entities[..i + 1][i] == e;
      }
      assert forall q :: Declared(entities[..i], q) ==> Declared(entities[..i + 1], q) by {
        forall q | Declared(entities[..i], q) ensures Declared(entities[..i + 1], q) {
          var j :| 0 <= j < i && entities[..i][j].typeName.Text() == "hive_db" &&
                   QualifiedNameKey(entities[..i][j]) == Some(q);
          assert entities[..i + 1][j] == entities[..i][j];
        }
      }
    }
    assert entities[..|entities|] == entities;
  }

  /** The body of the third loop. */
  method CheckReference(entities: seq<Entity>, i: nat, hiveDbs: set<string>) returns (found: seq<Error>)
    requires i < |entities| && forall q :: q in hiveDbs <==> Declared(entities, q)
    ensures forall e :: multiset(found)[e] == if ReferenceFaultAt(entities, i, e) then 1 else 0
  {
    if entities[i].typeName.Text() != "hive_table" {
      return [];
    }
    var dq := entities[i].dbName.NonBlank();
    if dq.None? {
      return [NoDatabase(i)];
    }
    return if dq.value !in hiveDbs then [UnknownDatabase(i, dq.value)] else [];
  }

  /** Every fault is reported and nothing else, as often as TimesReported says; nothing exactly for a
      valid file. */
  method ValidateEntities(entities: seq<Entity>) returns (errors: seq<Error>)
    ensures forall e :: multiset(errors)[e] == TimesReported(entities, |entities|, e)
    ensures forall e :: e in errors <==> EntityFault(entities, |entities|, e) || ReferenceFault(entities, |entities|, e)
    ensures errors == [] <==> Valid(entities)
  {
    errors := [];
    var seen: set<(string, string)> := {};
    for i := 0 to |entities|
      invariant Reports(errors, entities, i, 0)
      invariant SeenUpTo(entities, i, seen)
    {
      var found;
      found, seen := CheckEntity(entities, i, seen);
      ReportsFirst(errors, found, entities, i);
      errors := errors + found;
    }
    var hiveDbs := DeclaredDatabases(entities);
    for i := 0 to |entities|
      invariant Reports(errors, entities, |entities|, i)
    {
      var found := CheckReference(entities, i, hiveDbs);
      ReportsSecond(errors, found, entities, i);
      errors := errors + found;
    }
    AllReported(errors, entities);
  }

  // ----- The paginated searches -----

  /** The answer to a request with this limit and offset. */
  function Page<T>(catalogue: seq<T>, limit: nat, offset: nat): (page: seq<T>) {
    if offset + limit <= |catalogue| then catalogue[offset..offset + limit]
    else if offset <= |catalogue| then catalogue[offset..]
    else []
  }

  lemma TimesGrows(a: nat, b: nat, c: nat)
    ensures a <= b ==> a * c <= b * c
  {
  }

  /** Page n is the last one asked for: it is not full. */
  lemma LastPage(total: nat, limit: nat, n: nat)
    requires limit >= 1 && n * limit <= total
    ensures n <= total / limit
    ensures total < n * limit + limit ==> n == total / limit
  {
    var q := total / limit;
    assert total == q * limit + total % limit;
    TimesGrows(q + 1, n, limit);
    TimesGrows(n + 1, q, limit);
  }

  /** The number of entities when all pages answer; otherwise -1 without the first page, and the
      pages counted before the first that does not answer. */
  method SearchBasicCount<T>(catalogue: seq<T>, limit: nat, approximate: Option<int>, up: nat -> bool)
    returns (total: int)
    requires limit >= 1
    ensures !up(0) ==> total == -1
    ensures up(0) && approximate.Some? && approximate.value >= 0 ==> total == approximate.value
    ensures up(0) && (approximate.None? || approximate.value < 0) ==>
      if forall k: nat :: k <= |catalogue| / limit ==> up(k) then total == |catalogue|
      else exists k: nat :: k <= |catalogue| / limit && !up(k) && total == k * limit && forall j: nat :: j < k ==> up(j)
  {
    if !up(0) {
      return -1;
    }
    if approximate.Some? && approximate.value >= 0 {
      return approximate.value;
    }
    var page := Page(catalogue, limit, 0);
    total := |page|;
    LastPage(|catalogue|, limit, 0);
    if |page| < limit {
      return;
    }
    var offset := limit;
    var n: nat := 1;
    while true
      invariant n >= 1 && offset == n * limit && total == offset <= |catalogue|
      invariant forall j: nat :: j < n ==> up(j)
      decreases |catalogue| - offset
    {
      LastPage(|catalogue|, limit, n);
      if !up(n) {
        return;
      }
      var chunk := Page(catalogue, limit, offset);
      total := total + |chunk|;
      if |chunk| < limit {
        break;
      }
      offset := offset + limit;
      n := n + 1;
    }
  }

  /** The page that entry i stands on, and the entry that page n starts with. */
  function PageOf(i: nat, limit: nat): nat
    requires limit >= 1
  {
    if i < limit then 0 else 1 + PageOf(i - limit, limit)
  }

  function StartOf(n: nat, limit: nat): nat {
    if n == 0 then 0 else StartOf(n - 1, limit) + limit
  }

  lemma {:induction false} StartIsPage(i: nat, limit: nat)
    requires limit >= 1
    ensures StartOf(PageOf(i, limit), limit) <= i < StartOf(PageOf(i, limit), limit) + limit
  {
    if i >= limit {
      StartIsPage(i - limit, limit);
    }
  }

  lemma {:induction false} StartsGrow(m: nat, n: nat, limit: nat)
    requires m < n
    ensures StartOf(m, limit) + limit <= StartOf(n, limit)
  {
    if m < n - 1 {
      StartsGrow(m, n - 1, limit);
    }
  }

  /** Entry i stands on a page that answers after pages that all do. */
  ghost predicate Reached(limit: nat, up: nat -> bool, i: nat)
    requires limit >= 1
  {
    forall k: nat :: k <= PageOf(i, limit) ==> up(k)
  }

  /** When page n does not answer, no entry from its start on is reached. */
  lemma NotReachedBehind(limit: nat, up: nat -> bool, n: nat, total: nat)
    requires limit >= 1 && !up(n)
    ensures forall i :: StartOf(n, limit) <= i < total ==> !Reached(limit, up, i)
  {
    forall i | StartOf(n, limit) <= i < total ensures !Reached(limit, up, i) {
      StartIsPage(i, limit);
      if PageOf(i, limit) < n {
        StartsGrow(PageOf(i, limit), n, limit);
      }
    }
  }

  /** When the pages to n answer, the entries of page n are reached. */
  lemma ReachedOnPage(limit: nat, up: nat -> bool, n: nat, i: nat)
    requires limit >= 1 && StartOf(n, limit) <= i < StartOf(n, limit) + limit && forall k: nat :: k <= n ==> up(k)
    ensures Reached(limit, up, i)
  {
    StartIsPage(i, limit);
    if n < PageOf(i, limit) {
      StartsGrow(n, PageOf(i, limit), limit);
    }
  }

  /** The scan of one page. */
  method AnyMatches(chunk: seq<string>, matches: string -> bool) returns (found: bool, at: nat)
    ensures found ==> at < |chunk| && matches(chunk[at])
    ensures !found ==> forall i :: 0 <= i < |chunk| ==> !matches(chunk[i])
  {
    for j := 0 to |chunk|
      invariant forall i :: 0 <= i < j ==> !matches(chunk[i])
    {
      if matches(chunk[j]) {
        return true, j;
      }
    }
    return false, 0;
  }

  /** Whether some name satisfies the predicate, on a page that answers after pages that all do. */
  method SearchQualnameMatches(names: seq<string>, limit: nat, matches: string -> bool, up: nat -> bool)
    returns (found: bool)
    requires limit >= 1
    ensures found <==> exists i :: 0 <= i < |names| && matches(names[i]) && Reached(limit, up, i)
    ensures (forall k: nat :: up(k)) ==> (found <==> exists i :: 0 <= i < |names| && matches(names[i]))
  {
    var offset := 0;
    var n: nat := 0;
    while true
      invariant offset == StartOf(n, limit) <= |names|
      invariant forall k: nat :: k < n ==> up(k)
      invariant forall i :: 0 <= i < offset ==> !matches(names[i])
      decreases |names| - offset
    {
      if !up(n) {
        NotReachedBehind(limit, up, n, |names|);
        return false;
      }
      var chunk := Page(names, limit, offset);
      if chunk == [] {
        return false;
      }
      var hit, j := AnyMatches(chunk, matches);
      if hit {
        ReachedOnPage(limit, up, n, offset + j);
        assert matches(names[offset + j]);
        return true;
      }
      assert forall i :: offset <= i < offset + |chunk| ==> names[i] == chunk[i - offset];
      if |chunk| < limit {
        return false;
      }
      offset := offset + limit;
      n := n + 1;
    }
  }
}
