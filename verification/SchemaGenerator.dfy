/** The OpenAPI schema generator (addons/openapi/generator.go): a depth-first search of a
    possibly cyclic graph of types. It stops at the names of structs already registered, but
    opens every other named type anew. */
module SchemaGenerators {
  import opened Strings

  /** A Go type as reflection shows it. A named struct, and a defined pointer, slice or array
      type, is known by its name and looked up in the program's declarations, so types may be
      cyclic through names. Other defined types are like the type they are defined as. */
  datatype GoType =
    | StringType
    | Uint8Type
    | IntegerType
    | FloatType
    | BoolType
    | Pointer(elem: GoType)
    | Slice(elem: GoType)
    | Array(elem: GoType)
    | MapType
    | TimeType
    | InlineStruct(fields: seq<Field>)
    | NamedStruct(name: string)
    | Defined(name: string)
    | OtherType

  datatype Field = Field(name: string, exported: bool, jsonTag: string, typ: GoType)

  /** The fields of each named struct, and what each other defined type is defined as. */
  datatype Declarations = Declarations(structs: map<string, seq<Field>>, types: map<string, GoType>)

  /** A nil map of properties is an empty one. */
  datatype Schema = Schema(typ: string, format: string, items: Option<Schema>,
                           properties: map<string, Schema>, ref: string)

  const PLACEHOLDER := Schema("", "", None, map[], "")
  const PREFIX := "#/components/schemas/"

  function Simple(typ: string, format: string): Schema {
    Schema(typ, format, None, map[], "")
  }

  function Ref(name: string): Schema {
    Schema("", "", None, map[], PREFIX + name)
  }

  predicate Skipped(field: Field) {
    !field.exported || field.jsonTag == "-"
  }

  /** The field's own name, or the tag up to its first comma, empty or not. */
  function JsonName(field: Field): string {
    if field.jsonTag == "" then field.name
    else
      var i := IndexByte(field.jsonTag, ',');
      if i < 0 then field.jsonTag else field.jsonTag[..i]
  }

  // ----- Declarations -----

  /** What a name is defined as; every name a program mentions is declared. */
  function Definition(env: Declarations, name: string): GoType {
    if name in env.types then env.types[name] else OtherType
  }

  function Under(env: Declarations, t: GoType): GoType {
    if t.Defined? then Definition(env, t.name) else t
  }

  predicate IsPointer(env: Declarations, t: GoType) {
    Under(env, t).Pointer?
  }

  predicate Declared(env: Declarations, t: GoType)
    decreases t, 1
  {
    match t
    case Pointer(elem) => Declared(env, elem)
    case Slice(elem) => Declared(env, elem)
    case Array(elem) => Declared(env, elem)
    case InlineStruct(fields) => FieldsDeclared(env, fields)
    case NamedStruct(name) => name in env.structs
    case Defined(name) => name in env.types
    case _ => true
  }

  predicate FieldsDeclared(env: Declarations, fields: seq<Field>)
    decreases fields, 0
  {
    fields == [] || (FieldsDeclared(env, fields[..|fields| - 1]) && Declared(env, fields[|fields| - 1].typ))
  }

  /** Every name mentioned is declared, as in any Go program. */
  ghost predicate WellDeclared(env: Declarations) {
    && (forall name :: name in env.types ==>
          && Declared(env, env.types[name])
          && (env.types[name].Pointer? || env.types[name].Slice? || env.types[name].Array?))
    && (forall name :: name in env.structs ==> FieldsDeclared(env, env.structs[name]))
  }

  // ----- Opening defined types -----

  /** The generator comes to the end of the type when it may open defined types inside each
      other up to `n` deep. Named structs are not looked into. */
  predicate Stops(env: Declarations, t: GoType, n: nat)
    decreases n, t, 1
  {
    match t
    case Defined(name) => n > 0 && Stops(env, Definition(env, name), n - 1)
    case Pointer(elem) => IsPointer(env, elem) || Stops(env, elem, n)
    case Slice(elem) => elem == Uint8Type || Stops(env, elem, n)
    case Array(elem) => elem == Uint8Type || Stops(env, elem, n)
    case InlineStruct(fields) => FieldsStop(env, fields, n)
    case _ => true
  }

  predicate FieldsStop(env: Declarations, fields: seq<Field>, n: nat)
    decreases n, fields, 0
  {
    if fields == [] then true
    else
      var field := fields[|fields| - 1];
      FieldsStop(env, fields[..|fields| - 1], n) && (Skipped(field) || Stops(env, field.typ, n))
  }

  /** The defined types the generator opens first, in a type or in the fields of a struct. */
  function Opens(env: Declarations, t: GoType): set<string>
    decreases t, 1
  {
    match t
    case Defined(name) => {name}
    case Pointer(elem) => if IsPointer(env, elem) then {} else Opens(env, elem)
    case Slice(elem) => if elem == Uint8Type then {} else Opens(env, elem)
    case Array(elem) => if elem == Uint8Type then {} else Opens(env, elem)
    case InlineStruct(fields) => FieldOpens(env, fields)
    case _ => {}
  }

  function FieldOpens(env: Declarations, fields: seq<Field>): set<string>
    decreases fields, 0
  {
    if fields == [] then {}
    else
      var field := fields[|fields| - 1];
      FieldOpens(env, fields[..|fields| - 1]) + (if Skipped(field) then {} else Opens(env, field.typ))
  }

  predicate NameStops(env: Declarations, name: string, n: nat) {
    n > 0 && Stops(env, Definition(env, name), n - 1)
  }

  ghost predicate AllStop(env: Declarations, names: set<string>, n: nat) {
    forall name :: name in names ==> NameStops(env, name, n)
  }

  lemma {:induction false} StopsByName(env: Declarations, t: GoType, n: nat)
    ensures Stops(env, t, n) <==> AllStop(env, Opens(env, t), n)
    decreases t, 1
  {
    match t {
      case Pointer(elem) => if !IsPointer(env, elem) { StopsByName(env, elem, n); }
      case Slice(elem) => if elem != Uint8Type { StopsByName(env, elem, n); }
      case Array(elem) => if elem != Uint8Type { StopsByName(env, elem, n); }
      case InlineStruct(fields) => FieldsStopByName(env, fields, n);
      case Defined(name) => assert Stops(env, t, n) == NameStops(env, name, n);
      case _ =>
    }
  }

  lemma {:induction false} FieldsStopByName(env: Declarations, fields: seq<Field>, n: nat)
    ensures FieldsStop(env, fields, n) <==> AllStop(env, FieldOpens(env, fields), n)
    decreases fields, 0
  {
    if fields != [] {
      var field := fields[|fields| - 1];
      FieldsStopByName(env, fields[..|fields| - 1], n);
      if !Skipped(field) {
        StopsByName(env, field.typ, n);
      }
    }
  }

  /** Each name is opened in the definition of the one before. */
  ghost predicate Opening(env: Declarations, chain: seq<string>) {
    forall i :: 0 < i < |chain| ==> chain[i] in Opens(env, Definition(env, chain[i - 1]))
  }

  ghost predicate OpeningFrom(env: Declarations, from: set<string>, chain: seq<string>) {
    chain != [] && chain[0] in from && Opening(env, chain)
  }

  predicate Repeats(chain: seq<string>) {
    exists i, j :: 0 <= i < j < |chain| && chain[i] == chain[j]
  }

  /** Some chain of defined types, opened one inside the other, comes back to a name. */
  ghost predicate Loops(env: Declarations, from: set<string>) {
    exists chain :: OpeningFrom(env, from, chain) && Repeats(chain)
  }

  /** Along a chain the bound gets smaller with every name. */
  lemma {:induction false} StopsAlong(env: Declarations, chain: seq<string>, n: nat, k: nat)
    requires k < |chain| && Opening(env, chain) && NameStops(env, chain[0], n)
    ensures k < n && NameStops(env, chain[k], n - k)
  {
    if k > 0 {
      StopsAlong(env, chain, n, k - 1);
      StopsByName(env, Definition(env, chain[k - 1]), n - k);
      assert chain[k] in Opens(env, Definition(env, chain[k - 1]));
      assert NameStops(env, chain[k], n - k);
    }
  }

  /** So a name that stops within a bound is not opened again inside itself. */
  lemma {:induction false} StopsOnce(env: Declarations, chain: seq<string>, n: nat)
    requires |chain| > 1 && Opening(env, chain) && chain[|chain| - 1] == chain[0]
    ensures !NameStops(env, chain[0], n)
    decreases n
  {
    if NameStops(env, chain[0], n) {
      StopsAlong(env, chain, n, |chain| - 1);
      StopsOnce(env, chain, n - (|chain| - 1));
    }
  }

  lemma LoopsNeverStop(env: Declarations, from: set<string>, n: nat)
    requires Loops(env, from)
    ensures !AllStop(env, from, n)
  {
    var chain :| OpeningFrom(env, from, chain) && Repeats(chain);
    var i, j :| 0 <= i < j < |chain| && chain[i] == chain[j];
    if NameStops(env, chain[0], n) {
      StopsAlong(env, chain, n, i);
      StopsOnce(env, chain[i..j + 1], n - i);
    }
  }

  /** What does not stop within a bound has a chain longer than the bound. */
  lemma {:induction false} LongChain(env: Declarations, from: set<string>, n: nat) returns (chain: seq<string>)
    requires !AllStop(env, from, n)
    ensures OpeningFrom(env, from, chain) && |chain| == n + 1
    decreases n
  {
    var name :| name in from && !NameStops(env, name, n);
    chain := [name];
    if n > 0 {
      StopsByName(env, Definition(env, name), n - 1);
      var rest := LongChain(env, Opens(env, Definition(env, name)), n - 1);
      chain := [name] + rest;
      forall i | 0 < i < |chain| ensures chain[i] in Opens(env, Definition(env, chain[i - 1])) {
        assert chain[i] == rest[i - 1];
        if i > 1 {
          assert chain[i - 1] == rest[i - 2];
        }
      }
    }
  }

  /** More places than names: some name is there twice. */
  lemma {:induction false} Pigeonhole(chain: seq<string>, names: set<string>)
    requires (forall i :: 0 <= i < |chain| ==> chain[i] in names) && |chain| > |names|
    ensures Repeats(chain)
    decreases |chain|
  {
    var n := |chain| - 1;
    var last := chain[n];
    if i :| 0 <= i < n && chain[i] == last {
    } else {
      Pigeonhole(chain[..n], names - {last});
      var i, j :| 0 <= i < j < |chain[..n]| && chain[..n][i] == chain[..n][j];
      assert chain[i] == chain[j];
    }
  }

  lemma {:induction false} OpensDeclared(env: Declarations, t: GoType)
    requires Declared(env, t)
    ensures Opens(env, t) <= env.types.Keys
    decreases t, 1
  {
    match t {
      case Pointer(elem) => OpensDeclared(env, elem);
      case Slice(elem) => OpensDeclared(env, elem);
      case Array(elem) => OpensDeclared(env, elem);
      case InlineStruct(fields) => FieldOpensDeclared(env, fields);
      case _ =>
    }
  }

  lemma {:induction false} FieldOpensDeclared(env: Declarations, fields: seq<Field>)
    requires FieldsDeclared(env, fields)
    ensures FieldOpens(env, fields) <= env.types.Keys
    decreases fields, 0
  {
    if fields != [] {
      FieldOpensDeclared(env, fields[..|fields| - 1]);
      OpensDeclared(env, fields[|fields| - 1].typ);
    }
  }

  /** As many openings as there are defined types. */
  function Enough(env: Declarations): nat {
    |env.types|
  }

  lemma EnoughOrLoops(env: Declarations, from: set<string>)
    requires WellDeclared(env) && from <= env.types.Keys
    requires !AllStop(env, from, Enough(env))
    ensures Loops(env, from)
  {
    var chain := LongChain(env, from, Enough(env));
    forall i | 0 <= i < |chain| ensures chain[i] in env.types.Keys {
      ChainDeclared(env, from, chain, i);
    }
    Pigeonhole(chain, env.types.Keys);
  }

  /** The names stop within some bound if and only if no chain from them repeats a name; and
      then the number of defined types is bound enough. */
  lemma NamesStopIff(env: Declarations, from: set<string>)
    requires WellDeclared(env) && from <= env.types.Keys
    ensures (exists n: nat :: AllStop(env, from, n)) <==> !Loops(env, from)
    ensures !Loops(env, from) <==> AllStop(env, from, Enough(env))
  {
    if Loops(env, from) {
      forall n: nat ensures !AllStop(env, from, n) {
        LoopsNeverStop(env, from, n);
      }
    }
    if !AllStop(env, from, Enough(env)) {
      EnoughOrLoops(env, from);
    }
  }

  lemma {:induction false} ChainDeclared(env: Declarations, from: set<string>, chain: seq<string>, i: nat)
    requires WellDeclared(env) && from <= env.types.Keys
    requires OpeningFrom(env, from, chain) && i < |chain|
    ensures chain[i] in env.types.Keys
  {
    if i > 0 {
      ChainDeclared(env, from, chain, i - 1);
      OpensDeclared(env, Definition(env, chain[i - 1]));
    }
  }

  lemma FieldsStopIff(env: Declarations, fields: seq<Field>)
    requires WellDeclared(env) && FieldsDeclared(env, fields)
    ensures (exists n: nat :: FieldsStop(env, fields, n)) <==> !Loops(env, FieldOpens(env, fields))
    ensures !Loops(env, FieldOpens(env, fields)) <==> FieldsStop(env, fields, Enough(env))
  {
    FieldOpensDeclared(env, fields);
    NamesStopIff(env, FieldOpens(env, fields));
    FieldsStopByName(env, fields, Enough(env));
    if n: nat :| FieldsStop(env, fields, n) {
      FieldsStopByName(env, fields, n);
    }
  }

  /** A type on its own ends if and only if no chain of defined types opened from it repeats
      a name. */
  lemma StopsIff(env: Declarations, t: GoType)
    requires WellDeclared(env) && Declared(env, t)
    ensures (exists n: nat :: Stops(env, t, n)) <==> !Loops(env, Opens(env, t))
    ensures !Loops(env, Opens(env, t)) <==> Stops(env, t, Enough(env))
  {
    OpensDeclared(env, t);
    NamesStopIff(env, Opens(env, t));
    StopsByName(env, t, Enough(env));
    if n: nat :| Stops(env, t, n) {
      StopsByName(env, t, n);
    }
  }

  // ----- The schema of a type, without the registry -----

  /** Within a bound on the openings; meant for types that stop within it. */
  function SchemaAt(env: Declarations, t: GoType, n: nat): Schema
    decreases n, t, 1
  {
    match t
    case StringType => Simple("string", "")
    case Uint8Type => Simple("integer", "")
    case IntegerType => Simple("integer", "")
    case FloatType => Simple("number", "")
    case BoolType => Simple("boolean", "")
    case Pointer(elem) => if IsPointer(env, elem) then Simple("string", "") else SchemaAt(env, elem, n)
    case Slice(elem) => ListSchema(env, t, elem, n)
    case Array(elem) => ListSchema(env, t, elem, n)
    case MapType => Simple("object", "")
    case TimeType => Simple("string", "date-time")
    case InlineStruct(fields) => StructSchemaAt(env, fields, n)
    case NamedStruct(name) => Ref(name)
    case Defined(name) => if n == 0 then PLACEHOLDER else SchemaAt(env, Definition(env, name), n - 1)
    case OtherType => Simple("string", "")
  }

  function ListSchema(env: Declarations, ghost t: GoType, elem: GoType, n: nat): Schema
    requires elem < t
    decreases n, t, 0
  {
    if elem == Uint8Type then Simple("string", "binary")
    else Schema("array", "", Some(SchemaAt(env, elem, n)), map[], "")
  }

  function StructSchemaAt(env: Declarations, fields: seq<Field>, n: nat): Schema
    decreases n, fields, 1
  {
    Schema("object", "", None, Properties(env, fields, n), "")
  }

  /** Later fields of the same name win. */
  function Properties(env: Declarations, fields: seq<Field>, n: nat): map<string, Schema>
    decreases n, fields, 0
  {
    if fields == [] then map[]
    else
      var earlier := Properties(env, fields[..|fields| - 1], n);
      var field := fields[|fields| - 1];
      if Skipped(field) then earlier else earlier[JsonName(field) := SchemaAt(env, field.typ, n)]
  }

  /** The struct names the generator meets in a type, within a bound on the openings. */
  function NamesAt(env: Declarations, t: GoType, n: nat): set<string>
    decreases n, t, 1
  {
    match t
    case Pointer(elem) => if IsPointer(env, elem) then {} else NamesAt(env, elem, n)
    case Slice(elem) => if elem == Uint8Type then {} else NamesAt(env, elem, n)
    case Array(elem) => if elem == Uint8Type then {} else NamesAt(env, elem, n)
    case InlineStruct(fields) => FieldNamesAt(env, fields, n)
    case NamedStruct(name) => {name}
    case Defined(name) => if n == 0 then {} else NamesAt(env, Definition(env, name), n - 1)
    case _ => {}
  }

  function FieldNamesAt(env: Declarations, fields: seq<Field>, n: nat): set<string>
    decreases n, fields, 0
  {
    if fields == [] then {}
    else
      var field := fields[|fields| - 1];
      FieldNamesAt(env, fields[..|fields| - 1], n) + (if Skipped(field) then {} else NamesAt(env, field.typ, n))
  }

  /** A bound that is enough is as good as any greater one. */
  lemma {:induction false} MoreIsTheSame(env: Declarations, t: GoType, n: nat, m: nat)
    requires n <= m && Stops(env, t, n)
    ensures Stops(env, t, m) && SchemaAt(env, t, n) == SchemaAt(env, t, m) && NamesAt(env, t, n) == NamesAt(env, t, m)
    decreases n, t, 1
  {
    match t {
      case Pointer(elem) => if !IsPointer(env, elem) { MoreIsTheSame(env, elem, n, m); }
      case Slice(elem) => if elem != Uint8Type { MoreIsTheSame(env, elem, n, m); }
      case Array(elem) => if elem != Uint8Type { MoreIsTheSame(env, elem, n, m); }
      case InlineStruct(fields) => MoreIsTheSameForFields(env, fields, n, m);
      case Defined(name) => MoreIsTheSame(env, Definition(env, name), n - 1, m - 1);
      case _ =>
    }
  }

  lemma {:induction false} MoreIsTheSameForFields(env: Declarations, fields: seq<Field>, n: nat, m: nat)
    requires n <= m && FieldsStop(env, fields, n)
    ensures FieldsStop(env, fields, m) && FieldNamesAt(env, fields, n) == FieldNamesAt(env, fields, m)
    ensures Properties(env, fields, n) == Properties(env, fields, m)
    decreases n, fields, 0
  {
    if fields != [] {
      var field := fields[|fields| - 1];
      MoreIsTheSameForFields(env, fields[..|fields| - 1], n, m);
      if !Skipped(field) {
        MoreIsTheSame(env, field.typ, n, m);
      }
    }
  }

  function SchemaOf(env: Declarations, t: GoType): Schema {
    SchemaAt(env, t, Enough(env))
  }

  function StructSchema(env: Declarations, fields: seq<Field>): Schema {
    StructSchemaAt(env, fields, Enough(env))
  }

  function NamesIn(env: Declarations, t: GoType): set<string> {
    NamesAt(env, t, Enough(env))
  }

  function FieldNames(env: Declarations, name: string): set<string> {
    if name in env.structs then FieldNamesAt(env, env.structs[name], Enough(env)) else {}
  }

  lemma {:induction false} NamesDeclared(env: Declarations, t: GoType, n: nat)
    requires WellDeclared(env) && Declared(env, t)
    ensures NamesAt(env, t, n) <= env.structs.Keys
    decreases n, t, 1
  {
    match t {
      case Pointer(elem) => NamesDeclared(env, elem, n);
      case Slice(elem) => NamesDeclared(env, elem, n);
      case Array(elem) => NamesDeclared(env, elem, n);
      case InlineStruct(fields) => FieldNamesDeclared(env, fields, n);
      case Defined(name) => if n > 0 { NamesDeclared(env, Definition(env, name), n - 1); }
      case _ =>
    }
  }

  lemma {:induction false} FieldNamesDeclared(env: Declarations, fields: seq<Field>, n: nat)
    requires WellDeclared(env) && FieldsDeclared(env, fields)
    ensures FieldNamesAt(env, fields, n) <= env.structs.Keys
    decreases n, fields, 0
  {
    if fields != [] {
      FieldNamesDeclared(env, fields[..|fields| - 1], n);
      NamesDeclared(env, fields[|fields| - 1].typ, n);
    }
  }

  // ----- The graph of structs -----

  ghost predicate Chain(env: Declarations, path: seq<string>) {
    && (forall i :: 0 <= i < |path| ==> path[i] in env.structs)
    && (forall i :: 0 < i < |path| ==> path[i] in FieldNames(env, path[i - 1]))
  }

  ghost predicate ReachableBy(env: Declarations, from: set<string>, name: string, path: seq<string>) {
    path != [] && Chain(env, path) && path[0] in from && path[|path| - 1] == name
  }

  ghost predicate Reachable(env: Declarations, from: set<string>, name: string) {
    exists path :: ReachableBy(env, from, name, path)
  }

  /** Reachable through structs that are not registered. */
  ghost predicate NewReachable(env: Declarations, registered: set<string>, from: set<string>, name: string) {
    exists path :: ReachableBy(env, from, name, path) && Avoids(path, registered)
  }

  predicate Avoids(path: seq<string>, registered: set<string>) {
    forall i :: 0 <= i < |path| ==> path[i] !in registered
  }

  lemma ReachableFromMore(env: Declarations, from: set<string>, more: set<string>, name: string)
    requires Reachable(env, from, name) && from <= more
    ensures Reachable(env, more, name)
  {
    var path :| ReachableBy(env, from, name, path);
    assert ReachableBy(env, more, name, path);
  }

  lemma ReachableItself(env: Declarations, name: string)
    requires name in env.structs
    ensures Reachable(env, {name}, name)
  {
    assert ReachableBy(env, {name}, name, [name]);
  }

  lemma ReachableThrough(env: Declarations, name: string, far: string)
    requires name in env.structs && Reachable(env, FieldNames(env, name), far)
    ensures Reachable(env, {name}, far)
  {
    var path :| ReachableBy(env, FieldNames(env, name), far, path);
    PathThrough(env, {name}, name, far, path);
  }

  lemma PathThrough(env: Declarations, from: set<string>, name: string, far: string, path: seq<string>)
    requires name in env.structs && name in from && ReachableBy(env, FieldNames(env, name), far, path)
    ensures ReachableBy(env, from, far, [name] + path)
  {
    var longer := [name] + path;
    forall i | 0 < i < |longer| ensures longer[i] in FieldNames(env, longer[i - 1]) {
      if i > 1 { assert path[i - 1] in FieldNames(env, path[i - 2]); }
    }
  }

  lemma NewReachableFromLess(env: Declarations, registered: set<string>, from: set<string>,
                             more: set<string>, less: set<string>, name: string)
    requires registered <= more && less <= from && NewReachable(env, more, less, name)
    ensures NewReachable(env, registered, from, name)
  {
    var path :| ReachableBy(env, less, name, path) && Avoids(path, more);
    assert ReachableBy(env, from, name, path) && Avoids(path, registered);
  }

  lemma NewReachableThrough(env: Declarations, registered: set<string>, from: set<string>, name: string, far: string)
    requires name in env.structs && name in from && name !in registered
    requires NewReachable(env, registered + {name}, FieldNames(env, name), far)
    ensures NewReachable(env, registered, from, far)
  {
    var path :| ReachableBy(env, FieldNames(env, name), far, path) && Avoids(path, registered + {name});
    PathThrough(env, from, name, far, path);
    assert Avoids([name] + path, registered);
  }

  lemma NewReachableItself(env: Declarations, registered: set<string>, from: set<string>, name: string)
    requires name in env.structs && name in from && name !in registered
    ensures NewReachable(env, registered, from, name)
  {
    assert ReachableBy(env, from, name, [name]) && Avoids([name], registered);
  }

  /** The names form a set closed under the fields of their structs. */
  ghost predicate ClosedNames(env: Declarations, names: set<string>) {
    forall name :: name in names ==> name in env.structs && FieldNames(env, name) <= names
  }

  lemma {:induction false} ClosedHasReachable(env: Declarations, names: set<string>, path: seq<string>)
    requires ClosedNames(env, names) && path != [] && Chain(env, path) && path[0] in names
    ensures path[|path| - 1] in names
    decreases |path|
  {
    if |path| > 1 {
      ClosedHasReachable(env, names, path[..|path| - 1]);
    }
  }

  /** From a closed set of names nothing new is reached through it. */
  lemma {:induction false} ReachableIsNew(env: Declarations, registered: set<string>, path: seq<string>)
    requires ClosedNames(env, registered) && path != [] && Chain(env, path)
    requires path[|path| - 1] !in registered
    ensures Avoids(path, registered)
  {
    forall i | 0 <= i < |path| ensures path[i] !in registered {
      if path[i] in registered {
        ClosedHasReachable(env, registered, path[i..]);
      }
    }
  }

  // ----- When the search ends -----

  /** No chain of defined types, opened from the type or from the fields of a struct that is
      newly reached, repeats a name. */
  ghost predicate Acyclic(env: Declarations, registered: set<string>, t: GoType) {
    && !Loops(env, Opens(env, t))
    && forall name :: NewReachable(env, registered, NamesIn(env, t), name) ==>
         !Loops(env, FieldOpens(env, env.structs[name]))
  }

  /** The fields of every struct newly reached stop. */
  ghost predicate StructsStop(env: Declarations, registered: set<string>, from: set<string>) {
    forall name :: NewReachable(env, registered, from, name) ==>
      FieldsStop(env, env.structs[name], Enough(env))
  }

  lemma StructsStopForLess(env: Declarations, registered: set<string>, from: set<string>,
                           more: set<string>, less: set<string>)
    requires StructsStop(env, registered, from) && registered <= more && less <= from
    ensures StructsStop(env, more, less)
  {
    forall name | NewReachable(env, more, less, name) ensures FieldsStop(env, env.structs[name], Enough(env)) {
      NewReachableFromLess(env, registered, from, more, less, name);
    }
  }

  lemma StructsStopThrough(env: Declarations, registered: set<string>, from: set<string>, name: string)
    requires StructsStop(env, registered, from)
    requires name in env.structs && name in from && name !in registered
    ensures FieldsStop(env, env.structs[name], Enough(env))
    ensures StructsStop(env, registered + {name}, FieldNames(env, name))
  {
    NewReachableItself(env, registered, from, name);
    forall far | NewReachable(env, registered + {name}, FieldNames(env, name), far)
      ensures FieldsStop(env, env.structs[far], Enough(env))
    {
      NewReachableThrough(env, registered, from, name, far);
    }
  }

  lemma AcyclicStops(env: Declarations, registered: set<string>, t: GoType)
    requires WellDeclared(env) && Declared(env, t)
    ensures Acyclic(env, registered, t) <==>
              Stops(env, t, Enough(env)) && StructsStop(env, registered, NamesIn(env, t))
  {
    StopsIff(env, t);
    forall name | NewReachable(env, registered, NamesIn(env, t), name)
      ensures !Loops(env, FieldOpens(env, env.structs[name])) <==> FieldsStop(env, env.structs[name], Enough(env))
    {
      FieldsStopIff(env, env.structs[name]);
    }
  }

  /** The search itself, as far as which names get registered, for at most `n` openings inside
      each other, and at most `bound` again once a struct is entered: the names registered
      afterwards, None if a bound has run out. Only finitely many structs can be entered, so
      the generator recurses for ever exactly when every bound runs out. */
  function Visit(env: Declarations, registered: set<string>, t: GoType, n: nat, bound: nat)
    : (after: Option<set<string>>)
    ensures after.Some? ==> registered <= after.value
    decreases env.structs.Keys - registered, n, t, 1
  {
    match t
    case Pointer(elem) => if IsPointer(env, elem) then Some(registered) else Visit(env, registered, elem, n, bound)
    case Slice(elem) => if elem == Uint8Type then Some(registered) else Visit(env, registered, elem, n, bound)
    case Array(elem) => if elem == Uint8Type then Some(registered) else Visit(env, registered, elem, n, bound)
    case InlineStruct(fields) => VisitFields(env, registered, fields, n, bound)
    case NamedStruct(name) =>
      if name in registered || name !in env.structs then Some(registered)
      else
        assert name in env.structs.Keys - registered && name !in env.structs.Keys - (registered + {name});
        VisitFields(env, registered + {name}, env.structs[name], bound, bound)
    case Defined(name) => if n == 0 then None else Visit(env, registered, Definition(env, name), n - 1, bound)
    case _ => Some(registered)
  }

  function VisitFields(env: Declarations, registered: set<string>, fields: seq<Field>, n: nat, bound: nat)
    : (after: Option<set<string>>)
    ensures after.Some? ==> registered <= after.value
    decreases env.structs.Keys - registered, n, fields, 0
  {
    if fields == [] then Some(registered)
    else
      var field := fields[|fields| - 1];
      var earlier := VisitFields(env, registered, fields[..|fields| - 1], n, bound);
      if earlier.None? || Skipped(field) then earlier else Visit(env, earlier.value, field.typ, n, bound)
  }

  /** What a visit leaves: a set of names that has all the type mentions and, for each new
      name, all its struct mentions, which stops and was newly reached. */
  ghost predicate Reached(env: Declarations, before: set<string>, after: set<string>, from: set<string>, bound: nat) {
    && before <= after && from <= after
    && forall name {:trigger name in after} :: name in after && name !in before ==>
         && name in env.structs && FieldsStop(env, env.structs[name], bound)
         && FieldNamesAt(env, env.structs[name], bound) <= after
         && Reachable(env, from, name)
  }

  lemma ReachedTwice(env: Declarations, a: set<string>, b: set<string>, c: set<string>,
                     from: set<string>, more: set<string>, bound: nat)
    requires Reached(env, a, b, from, bound) && Reached(env, b, c, more, bound)
    ensures Reached(env, a, c, from + more, bound)
  {
    forall name | name in c && name !in a
      ensures name in env.structs && FieldsStop(env, env.structs[name], bound)
      ensures FieldNamesAt(env, env.structs[name], bound) <= c && Reachable(env, from + more, name)
    {
      if name in b {
        ReachableFromMore(env, from, from + more, name);
      } else {
        ReachableFromMore(env, more, from + more, name);
      }
    }
  }

  lemma ReachedStruct(env: Declarations, before: set<string>, after: set<string>, name: string, bound: nat)
    requires WellDeclared(env) && name in env.structs && name !in before
    requires FieldsStop(env, env.structs[name], bound)
    requires Reached(env, before + {name}, after, FieldNamesAt(env, env.structs[name], bound), bound)
    ensures Reached(env, before, after, {name}, bound)
  {
    SameNames(env, env.structs[name], bound);
    forall other | other in after && other !in before
      ensures other in env.structs && FieldsStop(env, env.structs[other], bound)
      ensures FieldNamesAt(env, env.structs[other], bound) <= after && Reachable(env, {name}, other)
    {
      if other == name {
        ReachableItself(env, name);
      } else {
        ReachableThrough(env, name, other);
      }
    }
  }

  lemma {:induction false} VisitReaches(env: Declarations, registered: set<string>, t: GoType, n: nat, bound: nat)
    requires WellDeclared(env) && Declared(env, t) && Visit(env, registered, t, n, bound).Some?
    ensures Stops(env, t, n)
    ensures Reached(env, registered, Visit(env, registered, t, n, bound).value, NamesAt(env, t, n), bound)
    decreases env.structs.Keys - registered, n, t, 1
  {
    match t {
      case Pointer(elem) => if !IsPointer(env, elem) { VisitReaches(env, registered, elem, n, bound); }
      case Slice(elem) => if elem != Uint8Type { VisitReaches(env, registered, elem, n, bound); }
      case Array(elem) => if elem != Uint8Type { VisitReaches(env, registered, elem, n, bound); }
      case InlineStruct(fields) => VisitFieldsReaches(env, registered, fields, n, bound);
      case NamedStruct(name) =>
        if name !in registered {
          assert name in env.structs.Keys - registered && name !in env.structs.Keys - (registered + {name});
          VisitFieldsReaches(env, registered + {name}, env.structs[name], bound, bound);
          ReachedStruct(env, registered, Visit(env, registered, t, n, bound).value, name, bound);
        }
      case Defined(name) => VisitReaches(env, registered, Definition(env, name), n - 1, bound);
      case _ =>
    }
  }

  lemma {:induction false} VisitFieldsReaches(env: Declarations, registered: set<string>, fields: seq<Field>,
                                              n: nat, bound: nat)
    requires WellDeclared(env) && FieldsDeclared(env, fields)
    requires VisitFields(env, registered, fields, n, bound).Some?
    ensures FieldsStop(env, fields, n)
    ensures Reached(env, registered, VisitFields(env, registered, fields, n, bound).value,
                    FieldNamesAt(env, fields, n), bound)
    decreases env.structs.Keys - registered, n, fields, 0
  {
    if fields != [] {
      var field := fields[|fields| - 1];
      VisitFieldsReaches(env, registered, fields[..|fields| - 1], n, bound);
      if !Skipped(field) {
        var earlier := VisitFields(env, registered, fields[..|fields| - 1], n, bound).value;
        VisitReaches(env, earlier, field.typ, n, bound);
        ReachedTwice(env, registered, earlier, VisitFields(env, registered, fields, n, bound).value,
                     FieldNamesAt(env, fields[..|fields| - 1], n), NamesAt(env, field.typ, n), bound);
      } else {
        assert FieldNamesAt(env, fields, n) == FieldNamesAt(env, fields[..|fields| - 1], n);
      }
    }
  }

  /** Conversely a visit ends when everything it meets stops. */
  lemma {:induction false} VisitEnds(env: Declarations, registered: set<string>, t: GoType, n: nat)
    requires Stops(env, t, n) && StructsStop(env, registered, NamesAt(env, t, n))
    ensures Visit(env, registered, t, n, Enough(env)).Some?
    decreases env.structs.Keys - registered, n, t, 1
  {
    match t {
      case Pointer(elem) => if !IsPointer(env, elem) { VisitEnds(env, registered, elem, n); }
      case Slice(elem) => if elem != Uint8Type { VisitEnds(env, registered, elem, n); }
      case Array(elem) => if elem != Uint8Type { VisitEnds(env, registered, elem, n); }
      case InlineStruct(fields) => VisitFieldsEnds(env, registered, fields, n);
      case NamedStruct(name) =>
        if name !in registered && name in env.structs {
          assert name in env.structs.Keys - registered && name !in env.structs.Keys - (registered + {name});
          StructsStopThrough(env, registered, {name}, name);
          VisitFieldsEnds(env, registered + {name}, env.structs[name], Enough(env));
        }
      case Defined(name) => VisitEnds(env, registered, Definition(env, name), n - 1);
      case _ =>
    }
  }

  lemma {:induction false} VisitFieldsEnds(env: Declarations, registered: set<string>, fields: seq<Field>, n: nat)
    requires FieldsStop(env, fields, n) && StructsStop(env, registered, FieldNamesAt(env, fields, n))
    ensures VisitFields(env, registered, fields, n, Enough(env)).Some?
    decreases env.structs.Keys - registered, n, fields, 0
  {
    if fields != [] {
      var all := FieldNamesAt(env, fields, n);
      var field, init := fields[|fields| - 1], fields[..|fields| - 1];
      StructsStopForLess(env, registered, all, registered, FieldNamesAt(env, init, n));
      VisitFieldsEnds(env, registered, init, n);
      if !Skipped(field) {
        var earlier := VisitFields(env, registered, init, n, Enough(env)).value;
        StructsStopForLess(env, registered, all, earlier, NamesAt(env, field.typ, n));
        VisitEnds(env, earlier, field.typ, n);
      }
    }
  }

  /** Names newly reachable from what a visit met are among those it left. */
  lemma {:induction false} ReachedHasReachable(env: Declarations, before: set<string>, after: set<string>,
                                               from: set<string>, bound: nat, path: seq<string>)
    requires WellDeclared(env) && Reached(env, before, after, from, bound)
    requires path != [] && Chain(env, path) && path[0] in from && Avoids(path, before)
    ensures path[|path| - 1] in after
    decreases |path|
  {
    if |path| > 1 {
      var init := path[..|path| - 1];
      ReachedHasReachable(env, before, after, from, bound, init);
      var last := init[|init| - 1];
      assert path[|path| - 1] in FieldNames(env, last) && last == path[|path| - 2];
      SameNames(env, env.structs[last], bound);
    }
  }

  lemma EnoughIfAny(env: Declarations, names: set<string>, n: nat)
    requires WellDeclared(env) && names <= env.types.Keys && AllStop(env, names, n)
    ensures AllStop(env, names, Enough(env))
  {
    NamesStopIff(env, names);
  }

  /** What stops within some bound has the same names within enough. */
  lemma SameNames(env: Declarations, fields: seq<Field>, bound: nat)
    requires WellDeclared(env) && FieldsDeclared(env, fields) && FieldsStop(env, fields, bound)
    ensures FieldsStop(env, fields, Enough(env))
    ensures FieldNamesAt(env, fields, bound) == FieldNamesAt(env, fields, Enough(env))
  {
    var enough := Enough(env);
    FieldOpensDeclared(env, fields);
    FieldsStopByName(env, fields, bound);
    FieldsStopByName(env, fields, enough);
    EnoughIfAny(env, FieldOpens(env, fields), bound);
    if bound <= enough {
      MoreIsTheSameForFields(env, fields, bound, enough);
    } else {
      MoreIsTheSameForFields(env, fields, enough, bound);
    }
  }

  lemma SameNamesOfType(env: Declarations, t: GoType, bound: nat)
    requires WellDeclared(env) && Declared(env, t) && Stops(env, t, bound)
    ensures Stops(env, t, Enough(env)) && NamesAt(env, t, bound) == NamesIn(env, t)
  {
    var enough := Enough(env);
    OpensDeclared(env, t);
    StopsByName(env, t, bound);
    StopsByName(env, t, enough);
    EnoughIfAny(env, Opens(env, t), bound);
    if bound <= enough {
      MoreIsTheSame(env, t, bound, enough);
    } else {
      MoreIsTheSame(env, t, enough, bound);
    }
  }

  /** From a closed set of names a visit that ends adds exactly the reachable ones. */
  lemma VisitRegisters(env: Declarations, registered: set<string>, t: GoType)
    requires WellDeclared(env) && Declared(env, t)
    requires ClosedNames(env, registered) && Acyclic(env, registered, t)
    ensures var after := Visit(env, registered, t, Enough(env), Enough(env));
            && after.Some?
            && forall name :: name in after.value <==> name in registered || Reachable(env, NamesIn(env, t), name)
  {
    AcyclicStops(env, registered, t);
    VisitEnds(env, registered, t, Enough(env));
    VisitReaches(env, registered, t, Enough(env), Enough(env));
    var after := Visit(env, registered, t, Enough(env), Enough(env)).value;
    forall name | name !in registered && Reachable(env, NamesIn(env, t), name) ensures name in after {
      var path :| ReachableBy(env, NamesIn(env, t), name, path);
      ReachableIsNew(env, registered, path);
      ReachedHasReachable(env, registered, after, NamesIn(env, t), Enough(env), path);
    }
  }

  /** The generator ends on a type if and only if no chain of defined types, opened from it
      or from the fields of a struct newly reached from it, repeats a name. */
  lemma EndsIffAcyclic(env: Declarations, registered: set<string>, t: GoType)
    requires WellDeclared(env) && Declared(env, t)
    ensures (exists bound: nat :: Visit(env, registered, t, bound, bound).Some?) <==> Acyclic(env, registered, t)
  {
    AcyclicStops(env, registered, t);
    if bound: nat :| Visit(env, registered, t, bound, bound).Some? {
      VisitReaches(env, registered, t, bound, bound);
      SameNamesOfType(env, t, bound);
      var after := Visit(env, registered, t, bound, bound).value;
      forall name | NewReachable(env, registered, NamesIn(env, t), name)
        ensures FieldsStop(env, env.structs[name], Enough(env))
      {
        var path :| ReachableBy(env, NamesIn(env, t), name, path) && Avoids(path, registered);
        ReachedHasReachable(env, registered, after, NamesIn(env, t), bound, path);
        SameNames(env, env.structs[name], bound);
      }
    }
    if Acyclic(env, registered, t) {
      VisitEnds(env, registered, t, Enough(env));
    }
  }

  /** It does not end on type T []T, nor on type T []struct{ Kids T }, nor on type P *[]P. */
  lemma EndlessExamples(bound: nat)
    ensures var env := Declarations(map[], map["T" := Slice(Defined("T"))]);
            Visit(env, {}, Defined("T"), bound, bound).None?
    ensures var kids := InlineStruct([Field("Kids", true, "", Defined("T"))]);
            var env := Declarations(map[], map["T" := Slice(kids)]);
            Visit(env, {}, Defined("T"), bound, bound).None?
    ensures var env := Declarations(map[], map["P" := Pointer(Slice(Defined("P")))]);
            Visit(env, {}, Defined("P"), bound, bound).None?
  {
    var one := Declarations(map[], map["T" := Slice(Defined("T"))]);
    var kids := InlineStruct([Field("Kids", true, "", Defined("T"))]);
    var two := Declarations(map[], map["T" := Slice(kids)]);
    var three := Declarations(map[], map["P" := Pointer(Slice(Defined("P")))]);
    Endless(one, "T", bound);
    Endless(two, "T", bound);
    Endless(three, "P", bound);
  }

  lemma Endless(env: Declarations, name: string, bound: nat)
    requires WellDeclared(env) && name in env.types && name in Opens(env, Definition(env, name))
    ensures Visit(env, {}, Defined(name), bound, bound).None?
  {
    var chain := [name, name];
    assert OpeningFrom(env, {name}, chain);
    assert chain[0] == chain[1];
    EndsIffAcyclic(env, {}, Defined(name));
  }

  // ----- What a call leaves -----

  /** The old components as they were, and for each new one its own schema, everything its
      fields mention, and a way to it from the type given. */
  ghost predicate Explored(env: Declarations, before: map<string, Schema>, after: map<string, Schema>,
                           from: set<string>)
  {
    && (forall name :: name in before ==> name in after && after[name] == before[name])
    && from <= after.Keys
    && (forall name {:trigger name in after} :: name in after && name !in before ==>
          && name in env.structs && after[name] == StructSchema(env, env.structs[name])
          && FieldNames(env, name) <= after.Keys
          && Reachable(env, from, name))
  }

  lemma ExploredTwice(env: Declarations, a: map<string, Schema>, b: map<string, Schema>, c: map<string, Schema>,
                      from: set<string>, more: set<string>)
    requires Explored(env, a, b, from) && Explored(env, b, c, more)
    ensures Explored(env, a, c, from + more)
  {
    forall name | name in c && name !in a
      ensures name in env.structs && c[name] == StructSchema(env, env.structs[name])
      ensures FieldNames(env, name) <= c.Keys && Reachable(env, from + more, name)
    {
      if name in b {
        ReachableFromMore(env, from, from + more, name);
      } else {
        ReachableFromMore(env, more, from + more, name);
      }
    }
  }

  /** Filling in the placeholder finishes the exploration of a struct. */
  lemma ExploredStruct(env: Declarations, before: map<string, Schema>, after: map<string, Schema>, name: string)
    requires name in env.structs && name !in before
    requires Explored(env, before[name := PLACEHOLDER], after, FieldNames(env, name))
    ensures Explored(env, before, after[name := StructSchema(env, env.structs[name])], {name})
  {
    var filled := after[name := StructSchema(env, env.structs[name])];
    assert name in after;
    forall other | other in filled && other !in before
      ensures other in env.structs && filled[other] == StructSchema(env, env.structs[other])
      ensures FieldNames(env, other) <= filled.Keys && Reachable(env, {name}, other)
    {
      if other == name {
        ReachableItself(env, name);
      } else {
        assert other in after;
        ReachableThrough(env, name, other);
      }
    }
  }

  /** Between calls: every registered name has the schema of its own struct, no placeholder,
      and everything a registered struct mentions is registered. */
  ghost predicate Registry(env: Declarations, schemas: map<string, Schema>) {
    && ClosedNames(env, schemas.Keys)
    && forall name :: name in schemas ==> schemas[name] == StructSchema(env, env.structs[name])
  }

  /** From a registry a call adds exactly the names reachable from the type. */
  lemma ExploredFromRegistry(env: Declarations, before: map<string, Schema>, after: map<string, Schema>,
                             from: set<string>)
    requires Registry(env, before) && Explored(env, before, after, from)
    ensures Registry(env, after)
    ensures forall name :: name in after <==> name in before || Reachable(env, from, name)
  {
    forall name | name in after ensures name in env.structs && FieldNames(env, name) <= after.Keys {
      if name in before {
        assert FieldNames(env, name) <= before.Keys;
      }
    }
    forall name | Reachable(env, from, name) ensures name in after {
      var path :| ReachableBy(env, from, name, path);
      ClosedHasReachable(env, after.Keys, path);
    }
  }

  /** Every reference anywhere in the schema names a registered component. */
  ghost predicate Resolves(schema: Schema, names: set<string>) {
    && (schema.ref != "" ==> exists name :: name in names && schema.ref == PREFIX + name)
    && (schema.items.Some? ==> Resolves(schema.items.value, names))
    && (forall key :: key in schema.properties ==> Resolves(schema.properties[key], names))
  }

  lemma {:induction false} SchemaResolves(env: Declarations, t: GoType, n: nat, names: set<string>)
    requires NamesAt(env, t, n) <= names
    ensures Resolves(SchemaAt(env, t, n), names)
    decreases n, t, 1
  {
    match t {
      case Pointer(elem) => if !IsPointer(env, elem) { SchemaResolves(env, elem, n, names); }
      case Slice(elem) => ListResolves(env, t, elem, n, names);
      case Array(elem) => ListResolves(env, t, elem, n, names);
      case InlineStruct(fields) => StructResolves(env, fields, n, names);
      case NamedStruct(name) => assert name in names;
      case Defined(name) => if n > 0 { SchemaResolves(env, Definition(env, name), n - 1, names); }
      case _ =>
    }
  }

  lemma {:induction false} ListResolves(env: Declarations, t: GoType, elem: GoType, n: nat, names: set<string>)
    requires elem < t && (elem != Uint8Type ==> NamesAt(env, elem, n) <= names)
    ensures Resolves(ListSchema(env, t, elem, n), names)
    decreases n, t, 0
  {
    if elem != Uint8Type {
      SchemaResolves(env, elem, n, names);
    }
  }

  lemma {:induction false} StructResolves(env: Declarations, fields: seq<Field>, n: nat, names: set<string>)
    requires FieldNamesAt(env, fields, n) <= names
    ensures Resolves(StructSchemaAt(env, fields, n), names)
    decreases n, fields, 0
  {
    if fields != [] {
      var field := fields[|fields| - 1];
      StructResolves(env, fields[..|fields| - 1], n, names);
      if !Skipped(field) {
        SchemaResolves(env, field.typ, n, names);
      }
    }
  }

  /** In a registry nothing dangles. */
  lemma RegistryResolves(env: Declarations, schemas: map<string, Schema>, name: string)
    requires Registry(env, schemas) && name in schemas
    ensures Resolves(schemas[name], schemas.Keys) && schemas[name] != PLACEHOLDER
  {
    StructResolves(env, env.structs[name], Enough(env), schemas.Keys);
  }

  // ----- Call order -----

  function AllNames(env: Declarations, ts: seq<GoType>): set<string> {
    if ts == [] then {} else AllNames(env, ts[..|ts| - 1]) + NamesIn(env, ts[|ts| - 1])
  }

  /** The components after calls for some types: those reachable from any of them, each
      with the schema of its struct. */
  ghost function Components(env: Declarations, ts: seq<GoType>): map<string, Schema> {
    map name | name in env.structs && Reachable(env, AllNames(env, ts), name) :: StructSchema(env, env.structs[name])
  }

  lemma ReachableInEnv(env: Declarations, from: set<string>, name: string)
    requires Reachable(env, from, name)
    ensures name in env.structs
  {
    var path :| ReachableBy(env, from, name, path);
    assert path[|path| - 1] in env.structs;
  }

  lemma ReachableFromEither(env: Declarations, a: set<string>, b: set<string>, name: string)
    ensures Reachable(env, a + b, name) <==> Reachable(env, a, name) || Reachable(env, b, name)
  {
    if Reachable(env, a, name) { ReachableFromMore(env, a, a + b, name); }
    if Reachable(env, b, name) { ReachableFromMore(env, b, a + b, name); }
    if Reachable(env, a + b, name) {
      var path :| ReachableBy(env, a + b, name, path);
      assert ReachableBy(env, a, name, path) || ReachableBy(env, b, name, path);
    }
  }

  /** One more call. */
  lemma ComponentsAfter(env: Declarations, ts: seq<GoType>, t: GoType, after: map<string, Schema>)
    requires Registry(env, after)
    requires forall name :: name in after <==> name in Components(env, ts) || Reachable(env, NamesIn(env, t), name)
    ensures after == Components(env, ts + [t])
  {
    assert (ts + [t])[..|ts|] == ts;
    forall name ensures name in after <==> name in Components(env, ts + [t]) {
      ReachableFromEither(env, AllNames(env, ts), NamesIn(env, t), name);
      if Reachable(env, NamesIn(env, t), name) { ReachableInEnv(env, NamesIn(env, t), name); }
    }
  }

  lemma {:induction false} AllNamesOfMember(env: Declarations, ts: seq<GoType>, t: GoType)
    requires t in ts
    ensures NamesIn(env, t) <= AllNames(env, ts)
  {
    if t != ts[|ts| - 1] {
      AllNamesOfMember(env, ts[..|ts| - 1], t);
    }
  }

  lemma {:induction false} AllNamesWithin(env: Declarations, ts: seq<GoType>, us: seq<GoType>)
    requires forall t :: t in ts ==> t in us
    ensures AllNames(env, ts) <= AllNames(env, us)
  {
    if ts != [] {
      AllNamesWithin(env, ts[..|ts| - 1], us);
      AllNamesOfMember(env, us, ts[|ts| - 1]);
    }
  }

  /** The order and number of calls do not matter, only which types were given. */
  lemma CallOrderIsIrrelevant(env: Declarations, ts: seq<GoType>, us: seq<GoType>)
    requires forall t :: t in ts <==> t in us
    ensures Components(env, ts) == Components(env, us)
  {
    AllNamesWithin(env, ts, us);
    AllNamesWithin(env, us, ts);
    assert AllNames(env, ts) == AllNames(env, us);
  }

  // ----- The generator -----

  /** The type after the pointer the generator looks through, if there is one. */
  function Deref(env: Declarations, t: GoType): GoType {
    if IsPointer(env, t) then Under(env, t).elem else t
  }

  /** The bound that is left once the type to switch on is in sight. */
  function LeftOver(env: Declarations, t: GoType, n: nat): int {
    n - (if IsPointer(env, t) && t.Defined? then 1 else 0) - (if Deref(env, t).Defined? then 1 else 0)
  }

  /** Opening names to see the kind of a type changes neither its schema nor its names. */
  lemma SwitchOn(env: Declarations, t: GoType, n: nat)
    requires WellDeclared(env) && Declared(env, t) && Stops(env, t, n)
    ensures var u, left := Under(env, Deref(env, t)), LeftOver(env, t, n);
            if u.Pointer? then SchemaAt(env, t, n) == Simple("string", "") && NamesAt(env, t, n) == {}
            else
              && 0 <= left <= n && (left == n ==> u == t || u < t) && !u.Defined? && Declared(env, u)
              && Stops(env, u, left)
              && SchemaAt(env, t, n) == SchemaAt(env, u, left) && NamesAt(env, t, n) == NamesAt(env, u, left)
  {
    if IsPointer(env, t) {
      var elem := Deref(env, t);
      var left := if t.Defined? then n - 1 else n;
      assert Declared(env, Under(env, t)) && Declared(env, elem);
      assert SchemaAt(env, t, n) == SchemaAt(env, Under(env, t), left);
      assert NamesAt(env, t, n) == NamesAt(env, Under(env, t), left);
      assert Stops(env, Under(env, t), left);
      if !IsPointer(env, elem) {
        assert Stops(env, elem, left);
        assert SchemaAt(env, t, n) == SchemaAt(env, elem, left) && NamesAt(env, t, n) == NamesAt(env, elem, left);
      }
    }
  }

  /** The names a call registers are those of the visit. */
  lemma VisitedKeys(env: Declarations, before: set<string>, after: set<string>, t: GoType)
    requires WellDeclared(env) && Declared(env, t) && ClosedNames(env, before) && Acyclic(env, before, t)
    requires forall name :: name in after <==> name in before || Reachable(env, NamesIn(env, t), name)
    ensures Visit(env, before, t, Enough(env), Enough(env)) == Some(after)
  {
    VisitRegisters(env, before, t);
    assert Visit(env, before, t, Enough(env), Enough(env)).value == after;
  }

  class Generator {
    /** Spec.Components.Schemas */
    var schemas: map<string, Schema>

    constructor ()
      ensures schemas == map[]
    {
      schemas := map[];
    }

    /** The entry point, for a type on which it ends. `ts` are the types given earlier. */
    method GenerateSchema(env: Declarations, v: GoType, ghost ts: seq<GoType>) returns (schema: Schema)
      requires WellDeclared(env) && Declared(env, v) && Acyclic(env, schemas.Keys, v)
      requires Registry(env, schemas) && schemas == Components(env, ts)
      modifies this
      ensures schema == SchemaOf(env, v) && NamesIn(env, v) <= schemas.Keys && Resolves(schema, schemas.Keys)
      ensures forall name :: name in schemas <==> name in old(schemas) || Reachable(env, NamesIn(env, v), name)
      ensures Registry(env, schemas) && schemas == Components(env, ts + [v])
      ensures Visit(env, old(schemas).Keys, v, Enough(env), Enough(env)) == Some(schemas.Keys)
    {
      ghost var before := schemas;
      AcyclicStops(env, schemas.Keys, v);
      schema := GenerateType(env, v, Enough(env));
      ExploredFromRegistry(env, before, schemas, NamesIn(env, v));
      ComponentsAfter(env, ts, v, schemas);
      SchemaResolves(env, v, Enough(env), schemas.Keys);
      VisitedKeys(env, before.Keys, schemas.Keys, v);
    }

    /** The recursion, within a bound on the openings of defined types in a row. */
    method GenerateType(env: Declarations, t: GoType, ghost n: nat) returns (schema: Schema)
      requires WellDeclared(env) && Declared(env, t)
      requires Stops(env, t, n) && StructsStop(env, schemas.Keys, NamesAt(env, t, n))
      modifies this
      ensures schema == SchemaAt(env, t, n)
      ensures Explored(env, old(schemas), schemas, NamesAt(env, t, n))
      decreases env.structs.Keys - schemas.Keys, n, t, 1
    {
      SwitchOn(env, t, n);
      ghost var left := LeftOver(env, t, n);
      var d := Under(env, Deref(env, t));
      match d {
        case StringType => schema := Simple("string", "");
        case Uint8Type => schema := Simple("integer", "");
        case IntegerType => schema := Simple("integer", "");
        case FloatType => schema := Simple("number", "");
        case BoolType => schema := Simple("boolean", "");
        case Slice(elem) => schema := GenerateList(env, d, elem, left);
        case Array(elem) => schema := GenerateList(env, d, elem, left);
        case MapType => schema := Simple("object", "");
        case TimeType => schema := Simple("string", "date-time");
        case InlineStruct(fields) => schema := GenerateStruct(env, fields, left);
        case NamedStruct(name) => schema := GenerateNamed(env, name, d);
        case Pointer(_) => schema := Simple("string", "");
        case OtherType => schema := Simple("string", "");
      }
    }

    /** A named struct is registered, as a placeholder first, unless it is already. */
    method GenerateNamed(env: Declarations, name: string, ghost t: GoType) returns (schema: Schema)
      requires WellDeclared(env) && name in env.structs && StructsStop(env, schemas.Keys, {name})
      modifies this
      ensures schema == Ref(name)
      ensures Explored(env, old(schemas), schemas, {name})
      decreases env.structs.Keys - schemas.Keys, 0, t, 0
    {
      if name !in schemas {
        ghost var before := schemas;
        StructsStopThrough(env, before.Keys, {name}, name);
        schemas := schemas[name := PLACEHOLDER];
        assert schemas.Keys == before.Keys + {name};
        assert env.structs.Keys - schemas.Keys < env.structs.Keys - before.Keys by {
          assert name in env.structs.Keys - before.Keys && name !in env.structs.Keys - schemas.Keys;
        }
        var filled := GenerateStruct(env, env.structs[name], Enough(env));
        ExploredStruct(env, before, schemas, name);
        schemas := schemas[name := filled];
      }
      schema := Ref(name);
    }

    method GenerateList(env: Declarations, ghost t: GoType, elem: GoType, ghost n: nat) returns (schema: Schema)
      requires WellDeclared(env) && elem < t && Declared(env, elem)
      requires elem != Uint8Type ==> Stops(env, elem, n) && StructsStop(env, schemas.Keys, NamesAt(env, elem, n))
      modifies this
      ensures schema == ListSchema(env, t, elem, n)
      ensures Explored(env, old(schemas), schemas, if elem == Uint8Type then {} else NamesAt(env, elem, n))
      decreases env.structs.Keys - schemas.Keys, n, elem, 2
    {
      if elem == Uint8Type {
        schema := Simple("string", "binary");
      } else {
        var items := GenerateType(env, elem, n);
        schema := Schema("array", "", Some(items), map[], "");
      }
    }

    method GenerateStruct(env: Declarations, fields: seq<Field>, ghost n: nat) returns (schema: Schema)
      requires WellDeclared(env) && FieldsDeclared(env, fields)
      requires FieldsStop(env, fields, n) && StructsStop(env, schemas.Keys, FieldNamesAt(env, fields, n))
      modifies this
      ensures schema == StructSchemaAt(env, fields, n)
      ensures Explored(env, old(schemas), schemas, FieldNamesAt(env, fields, n))
      decreases env.structs.Keys - schemas.Keys, n, fields
    {
      var properties := map[];
      var i := 0;
      while i < |fields|
        invariant 0 <= i <= |fields|
        invariant properties == Properties(env, fields[..i], n)
        invariant Explored(env, old(schemas), schemas, FieldNamesAt(env, fields[..i], n))
      {
        OneMoreField(env, fields, i, n);
        var field := fields[i];
        if !Skipped(field) {
          ghost var before := schemas;
          ExploredKeeps(env, old(schemas), before, FieldNamesAt(env, fields[..i], n));
          assert env.structs.Keys - before.Keys <= env.structs.Keys - old(schemas).Keys;
          FieldOf(env, fields, i, n);
          StructsStopForLess(env, old(schemas).Keys, FieldNamesAt(env, fields, n), before.Keys,
                             NamesAt(env, field.typ, n));
          var property := GenerateType(env, field.typ, n);
          ExploredTwice(env, old(schemas), before, schemas, FieldNamesAt(env, fields[..i], n),
                        NamesAt(env, field.typ, n));
          properties := properties[JsonName(field) := property];
        }
        i := i + 1;
      }
      assert fields[..|fields|] == fields;
      schema := Schema("object", "", None, properties, "");
    }
  }

  lemma ExploredKeeps(env: Declarations, before: map<string, Schema>, after: map<string, Schema>, from: set<string>)
    requires Explored(env, before, after, from)
    ensures before.Keys <= after.Keys
  {
  }

  lemma OneMoreField(env: Declarations, fields: seq<Field>, i: nat, n: nat)
    requires i < |fields|
    ensures FieldNamesAt(env, fields[..i + 1], n)
         == FieldNamesAt(env, fields[..i], n) + (if Skipped(fields[i]) then {} else NamesAt(env, fields[i].typ, n))
    ensures Skipped(fields[i]) ==> FieldNamesAt(env, fields[..i + 1], n) == FieldNamesAt(env, fields[..i], n)
    ensures Properties(env, fields[..i + 1], n)
         == if Skipped(fields[i]) then Properties(env, fields[..i], n)
            else Properties(env, fields[..i], n)[JsonName(fields[i]) := SchemaAt(env, fields[i].typ, n)]
  {
    assert fields[..i + 1][..i] == fields[..i];
  }

  lemma {:induction false} FieldOf(env: Declarations, fields: seq<Field>, i: nat, n: nat)
    requires i < |fields| && !Skipped(fields[i])
    requires FieldsDeclared(env, fields) && FieldsStop(env, fields, n)
    ensures Declared(env, fields[i].typ) && Stops(env, fields[i].typ, n)
    ensures NamesAt(env, fields[i].typ, n) <= FieldNamesAt(env, fields, n)
    decreases |fields|
  {
    if i < |fields| - 1 {
      FieldOf(env, fields[..|fields| - 1], i, n);
    }
  }
}
