/** What a schema means: which JSON documents it accepts, apart from how it is built; and when
    the schema of a Go type accepts the documents that encoding/json makes of its values. */
module SchemaMeanings {
  import opened Strings
  import opened SchemaGenerators

  datatype Json =
    | Null
    | Truth(b: bool)
    | Number(n: real)
    | Text(text: string)
    | List(items: seq<Json>)
    | Object(members: map<string, Json>)

  /** Whether a text is of a format. */
  type Formats = (string, string) -> bool

  predicate Whole(n: real) {
    n.Floor as real == n
  }

  // ----- Schemas -----

  predicate IsOfType(j: Json, typ: string) {
    match j
    case Null => false
    case Truth(_) => typ == "boolean"
    case Number(n) => typ == "number" || (typ == "integer" && Whole(n))
    case Text(_) => typ == "string"
    case List(_) => typ == "array"
    case Object(_) => typ == "object"
  }

  /** A reference stands for the component of its name, which is none itself. */
  ghost predicate Accepts(formats: Formats, components: map<string, Schema>, schema: Schema, j: Json)
    decreases j, 1
  {
    if schema.ref == "" then AcceptsItself(formats, components, schema, j)
    else exists name :: name in components && schema.ref == "#/components/schemas/" + name
                        && AcceptsItself(formats, components, components[name], j)
  }

  /** Each keyword constrains the documents it applies to; members without a property are free. */
  ghost predicate AcceptsItself(formats: Formats, components: map<string, Schema>, schema: Schema, j: Json)
    decreases j, 0
  {
    && (schema.typ == "" || IsOfType(j, schema.typ))
    && (j.Text? && schema.format != "" ==> formats(schema.format, j.text))
    && (j.List? && schema.items.Some? ==>
          forall i :: 0 <= i < |j.items| ==> Accepts(formats, components, schema.items.value, j.items[i]))
    && (j.Object? ==>
          forall key :: key in j.members && key in schema.properties ==>
            Accepts(formats, components, schema.properties[key], j.members[key]))
  }

  // ----- The name of a field -----

  /** The field is in the JSON under this key: its tag up to the first comma, its own name if
      it has no tag. */
  predicate Names(field: Field, key: string) {
    && field.exported && field.jsonTag != "-"
    && if field.jsonTag == "" then key == field.name
       else ',' !in key && (field.jsonTag == key || key + "," <= field.jsonTag)
  }

  /** Of the fields of one name the last decides. */
  ghost predicate Decides(fields: seq<Field>, i: nat, key: string) {
    i < |fields| && Names(fields[i], key) && forall k :: i < k < |fields| ==> !Names(fields[k], key)
  }

  lemma NamesIsJsonName(field: Field, key: string)
    ensures Names(field, key) <==> !Skipped(field) && key == JsonName(field)
  {
    var tag := field.jsonTag;
    if tag != "" {
      var i := IndexByte(tag, ',');
      if i >= 0 {
        assert tag[..i] + "," <= tag;
      }
      if key + "," <= tag && ',' !in key {
        assert tag[|key|] == ',' && tag[..|key|] == key;
      }
    }
  }

  /** With a tag the key is empty exactly if the tag begins with its comma. */
  lemma EmptyNameIff(field: Field)
    requires field.exported && field.jsonTag != "" && field.jsonTag != "-"
    ensures Names(field, "") <==> field.jsonTag[0] == ','
  {
    assert "" + "," == ",";
    assert "," <= field.jsonTag <==> field.jsonTag[0] == ',';
  }

  /** The properties of a struct: one for each key of a field, with the schema of the field
      that decides, and no others. */
  lemma {:induction false} PropertiesOf(env: Declarations, fields: seq<Field>, n: nat, key: string)
    ensures key in Properties(env, fields, n) <==> exists i: nat :: Decides(fields, i, key)
    ensures forall i: nat :: Decides(fields, i, key) ==>
              Properties(env, fields, n)[key] == SchemaAt(env, fields[i].typ, n)
  {
    if fields != [] {
      var last := |fields| - 1;
      PropertiesOf(env, fields[..last], n, key);
      NamesIsJsonName(fields[last], key);
      if Names(fields[last], key) {
        assert Decides(fields, last, key);
      } else {
        forall i: nat ensures Decides(fields, i, key) <==> Decides(fields[..last], i, key) {
          DecidesEarlier(fields, i, key);
        }
      }
    }
  }

  lemma DecidesEarlier(fields: seq<Field>, i: nat, key: string)
    requires fields != []
    ensures i < |fields| - 1 ==> (Decides(fields, i, key) <==>
              Decides(fields[..|fields| - 1], i, key) && !Names(fields[|fields| - 1], key))
    ensures !Names(fields[|fields| - 1], key) ==> (Decides(fields, i, key) <==> Decides(fields[..|fields| - 1], i, key))
  {
  }

  // ----- What the schema of a type describes -----

  /** The documents that a type is said to have, if defined types may be opened up to `n` deep. */
  ghost predicate Described(env: Declarations, formats: Formats, t: GoType, j: Json, n: nat)
    decreases j, 1, n, t
  {
    match t
    case StringType => j.Text?
    case Uint8Type => j.Number? && Whole(j.n)
    case IntegerType => j.Number? && Whole(j.n)
    case FloatType => j.Number?
    case BoolType => j.Truth?
    case Pointer(elem) => if IsPointer(env, elem) then j.Text? else Described(env, formats, elem, j, n)
    case Slice(elem) => ItemsDescribed(env, formats, elem, j, n)
    case Array(elem) => ItemsDescribed(env, formats, elem, j, n)
    case MapType => j.Object?
    case TimeType => j.Text? && formats("date-time", j.text)
    case InlineStruct(fields) => MembersDescribed(env, formats, fields, j, n)
    case NamedStruct(name) => name in env.structs && MembersDescribed(env, formats, env.structs[name], j, Enough(env))
    case Defined(name) => n == 0 || Described(env, formats, Definition(env, name), j, n - 1)
    case OtherType => j.Text?
  }

  ghost predicate ItemsDescribed(env: Declarations, formats: Formats, elem: GoType, j: Json, n: nat)
    decreases j, 0
  {
    if elem == Uint8Type then j.Text? && formats("binary", j.text)
    else j.List? && forall i :: 0 <= i < |j.items| ==> Described(env, formats, elem, j.items[i], n)
  }

  ghost predicate MembersDescribed(env: Declarations, formats: Formats, fields: seq<Field>, j: Json, n: nat)
    decreases j, 0
  {
    && j.Object?
    && forall key, i: nat :: key in j.members && Decides(fields, i, key) ==>
         Described(env, formats, fields[i].typ, j.members[key], n)
  }

  lemma {:induction false} NamesOfField(env: Declarations, fields: seq<Field>, i: nat, key: string, n: nat)
    requires Decides(fields, i, key)
    ensures NamesAt(env, fields[i].typ, n) <= FieldNamesAt(env, fields, n)
    decreases |fields|
  {
    var last := |fields| - 1;
    NamesIsJsonName(fields[i], key);
    if i < last {
      DecidesEarlier(fields, i, key);
      NamesOfField(env, fields[..last], i, key, n);
    }
  }

  /** With the components registered, a schema accepts exactly the documents its type
      describes, at every depth. */
  lemma {:induction false} AcceptsIffDescribed(env: Declarations, formats: Formats, components: map<string, Schema>,
                                               t: GoType, j: Json, n: nat)
    requires Registry(env, components) && NamesAt(env, t, n) <= components.Keys
    ensures Accepts(formats, components, SchemaAt(env, t, n), j) <==> Described(env, formats, t, j, n)
    decreases j, 1, n, t
  {
    if IsPlain(env, t) {
      PlainAcceptsIff(env, formats, components, t, j, n);
    } else {
      match t {
        case Pointer(elem) => AcceptsIffDescribed(env, formats, components, elem, j, n);
        case Slice(elem) => ListAcceptsIff(env, formats, components, t, elem, j, n);
        case Array(elem) => ListAcceptsIff(env, formats, components, t, elem, j, n);
        case InlineStruct(fields) => StructAcceptsIff(env, formats, components, fields, j, n);
        case NamedStruct(name) => NamedAcceptsIff(env, formats, components, name, j);
        case Defined(name) =>
          if n > 0 { AcceptsIffDescribed(env, formats, components, Definition(env, name), j, n - 1); }
      }
    }
  }

  predicate IsPlain(env: Declarations, t: GoType) {
    match t
    case Pointer(elem) => IsPointer(env, elem)
    case Slice(_) => false
    case Array(_) => false
    case InlineStruct(_) => false
    case NamedStruct(_) => false
    case Defined(_) => false
    case _ => true
  }

  lemma PlainAcceptsIff(env: Declarations, formats: Formats, components: map<string, Schema>, t: GoType, j: Json,
                        n: nat)
    requires IsPlain(env, t)
    ensures Accepts(formats, components, SchemaAt(env, t, n), j) <==> Described(env, formats, t, j, n)
  {
  }

  lemma {:induction false} NamedAcceptsIff(env: Declarations, formats: Formats, components: map<string, Schema>,
                                           name: string, j: Json)
    requires Registry(env, components) && name in components
    ensures Accepts(formats, components, Ref(name), j)
       <==> MembersDescribed(env, formats, env.structs[name], j, Enough(env))
    decreases j, 0, 1
  {
    StructAcceptsIff(env, formats, components, env.structs[name], j, Enough(env));
    RefAcceptsIff(formats, components, name, j);
  }

  lemma RefAcceptsIff(formats: Formats, components: map<string, Schema>, name: string, j: Json)
    requires name in components
    ensures Accepts(formats, components, Ref(name), j) <==> AcceptsItself(formats, components, components[name], j)
  {
    forall other | Ref(name).ref == "#/components/schemas/" + other ensures other == name {
      assert ("#/components/schemas/" + other)[|PREFIX|..] == other && (PREFIX + name)[|PREFIX|..] == name;
    }
  }

  lemma {:induction false} ListAcceptsIff(env: Declarations, formats: Formats, components: map<string, Schema>,
                                          t: GoType, elem: GoType, j: Json, n: nat)
    requires elem < t && Registry(env, components)
    requires elem != Uint8Type ==> NamesAt(env, elem, n) <= components.Keys
    ensures Accepts(formats, components, ListSchema(env, t, elem, n), j) <==> ItemsDescribed(env, formats, elem, j, n)
    decreases j, 0
  {
    if elem != Uint8Type && j.List? {
      forall i | 0 <= i < |j.items|
        ensures Accepts(formats, components, SchemaAt(env, elem, n), j.items[i])
           <==> Described(env, formats, elem, j.items[i], n)
      {
        AcceptsIffDescribed(env, formats, components, elem, j.items[i], n);
      }
    }
  }

  lemma {:induction false} StructAcceptsIff(env: Declarations, formats: Formats, components: map<string, Schema>,
                                            fields: seq<Field>, j: Json, n: nat)
    requires Registry(env, components) && FieldNamesAt(env, fields, n) <= components.Keys
    ensures AcceptsItself(formats, components, StructSchemaAt(env, fields, n), j)
       <==> MembersDescribed(env, formats, fields, j, n)
    decreases j, 0, 0
  {
    if j.Object? {
      var properties := Properties(env, fields, n);
      forall key, i: nat | key in j.members && Decides(fields, i, key)
        ensures key in properties
        ensures Accepts(formats, components, properties[key], j.members[key])
           <==> Described(env, formats, fields[i].typ, j.members[key], n)
      {
        PropertiesOf(env, fields, n, key);
        NamesOfField(env, fields, i, key, n);
        AcceptsIffDescribed(env, formats, components, fields[i].typ, j.members[key], n);
      }
      forall key | key in properties ensures exists i: nat :: Decides(fields, i, key) {
        PropertiesOf(env, fields, n, key);
      }
    }
  }

  // ----- What values become -----

  /** How a program's values are encoded: its declarations, its formats, and whether pointers,
      slices and maps may be nil. */
  datatype Program = Program(env: Declarations, formats: Formats, nils: bool)

  /** The documents of the values of a type, with defined types opened up to `d` deep between
      two levels of the document. A slice of bytes is a text and an array of bytes a list; a
      struct may leave members out, as omitempty does. */
  ghost predicate DocumentAt(program: Program, t: GoType, j: Json, d: nat)
    decreases j, 1, d, t
  {
    match t
    case StringType => j.Text?
    case Uint8Type => j.Number? && Whole(j.n)
    case IntegerType => j.Number? && Whole(j.n)
    case FloatType => j.Number?
    case BoolType => j.Truth?
    case Pointer(elem) => (program.nils && j.Null?) || DocumentAt(program, elem, j, d)
    case Slice(elem) =>
      || (program.nils && j.Null?)
      || if elem == Uint8Type then j.Text? && program.formats("binary", j.text)
         else ItemsDocumented(program, elem, j, d)
    case Array(elem) => ItemsDocumented(program, elem, j, d)
    case MapType => j.Object? || (program.nils && j.Null?)
    case TimeType => j.Text? && program.formats("date-time", j.text)
    case InlineStruct(fields) => MembersDocumented(program, fields, j, d)
    case NamedStruct(name) =>
      name in program.env.structs && MembersDocumented(program, program.env.structs[name], j, d)
    case Defined(name) => d > 0 && DocumentAt(program, Definition(program.env, name), j, d - 1)
    case OtherType => true
  }

  ghost predicate ItemsDocumented(program: Program, elem: GoType, j: Json, d: nat)
    decreases j, 0
  {
    j.List? && forall i :: 0 <= i < |j.items| ==> DocumentAt(program, elem, j.items[i], d)
  }

  ghost predicate MembersDocumented(program: Program, fields: seq<Field>, j: Json, d: nat)
    decreases j, 0
  {
    && j.Object?
    && forall key :: key in j.members ==>
         exists i: nat :: Decides(fields, i, key) && DocumentAt(program, fields[i].typ, j.members[key], d)
  }

  ghost predicate IsDocument(program: Program, t: GoType, j: Json) {
    exists d: nat :: DocumentAt(program, t, j, d)
  }

  // ----- Which types have documents that their schema does not describe -----

  /** No document but texts, as far as the names in `left` have not been opened. */
  predicate OnlyTexts(program: Program, t: GoType, left: set<string>)
    decreases left, t
  {
    match t
    case StringType => true
    case TimeType => true
    case Pointer(elem) => !program.nils && OnlyTexts(program, elem, left)
    case Slice(elem) => !program.nils && elem == Uint8Type
    case Defined(name) => name !in left || OnlyTexts(program, Definition(program.env, name), left - {name})
    case _ => false
  }

  /** The type has, outside of named structs, an array of bytes, a pointer to a pointer to
      something that is not a text, a type of another kind or something that may be nil. */
  ghost predicate Misfit(program: Program, t: GoType, n: nat)
    decreases n, t
  {
    match t
    case Pointer(elem) =>
      || program.nils
      || if IsPointer(program.env, elem) then !OnlyTexts(program, elem, program.env.types.Keys)
         else Misfit(program, elem, n)
    case Slice(elem) => program.nils || (elem != Uint8Type && Misfit(program, elem, n))
    case Array(elem) => elem == Uint8Type || Misfit(program, elem, n)
    case MapType => program.nils
    case InlineStruct(fields) => exists i: nat, key :: Decides(fields, i, key) && Misfit(program, fields[i].typ, n)
    case Defined(name) => n > 0 && Misfit(program, Definition(program.env, name), n - 1)
    case OtherType => true
    case _ => false
  }

  /** A document of the type may have one of the named struct inside. */
  ghost predicate Holds(env: Declarations, t: GoType, n: nat, name: string)
    decreases n, t
  {
    match t
    case Pointer(elem) => !IsPointer(env, elem) && Holds(env, elem, n, name)
    case Slice(elem) => elem != Uint8Type && Holds(env, elem, n, name)
    case Array(elem) => elem != Uint8Type && Holds(env, elem, n, name)
    case InlineStruct(fields) => exists i: nat, key :: Decides(fields, i, key) && Holds(env, fields[i].typ, n, name)
    case NamedStruct(other) => other == name
    case Defined(other) => n > 0 && Holds(env, Definition(env, other), n - 1, name)
    case _ => false
  }

  function StructOf(env: Declarations, name: string): GoType {
    if name in env.structs then InlineStruct(env.structs[name]) else InlineStruct([])
  }

  /** Each struct is inside the one before, the first inside the type. */
  ghost predicate HoldsBy(env: Declarations, t: GoType, path: seq<string>) {
    && path != [] && Holds(env, t, Enough(env), path[0])
    && forall i :: 0 < i < |path| ==> Holds(env, StructOf(env, path[i - 1]), Enough(env), path[i])
  }

  /** The type, or some struct inside it at any depth, has a misfit. */
  ghost predicate HasMisfit(program: Program, t: GoType) {
    Misfit(program, t, Enough(program.env)) || exists path :: MisfitAt(program, t, path)
  }

  ghost predicate MisfitAt(program: Program, t: GoType, path: seq<string>) {
    && HoldsBy(program.env, t, path)
    && Misfit(program, StructOf(program.env, path[|path| - 1]), Enough(program.env))
  }

  lemma MisfitAtMore(program: Program, t: GoType, name: string, path: seq<string>)
    requires Holds(program.env, t, Enough(program.env), name)
    requires MisfitAt(program, StructOf(program.env, name), path)
    ensures MisfitAt(program, t, [name] + path)
  {
    var env, longer := program.env, [name] + path;
    forall i | 0 < i < |longer| ensures Holds(env, StructOf(env, longer[i - 1]), Enough(env), longer[i]) {
      assert longer[i] == path[i - 1];
      if i > 1 { assert longer[i - 1] == path[i - 2]; }
    }
    assert longer[|longer| - 1] == path[|path| - 1];
  }

  lemma MisfitInside(program: Program, t: GoType, name: string)
    requires Holds(program.env, t, Enough(program.env), name)
    requires HasMisfit(program, StructOf(program.env, name))
    ensures HasMisfit(program, t)
  {
    if path :| MisfitAt(program, StructOf(program.env, name), path) {
      MisfitAtMore(program, t, name, path);
    } else {
      assert MisfitAt(program, t, [name]);
    }
  }

  // ----- Without a misfit every document is described -----

  lemma DecidesOnce(fields: seq<Field>, i: nat, k: nat, key: string)
    requires Decides(fields, i, key) && Decides(fields, k, key)
    ensures i == k
  {
  }

  ghost predicate AllFitInside(program: Program, t: GoType, n: nat) {
    forall name :: Holds(program.env, t, n, name) ==> !HasMisfit(program, StructOf(program.env, name))
  }

  lemma {:induction false} TextsOnly(program: Program, t: GoType, left: set<string>, j: Json, d: nat)
    requires WellDeclared(program.env) && Declared(program.env, t) && DocumentAt(program, t, j, d) && !j.Text?
    requires forall name, e: nat :: name in program.env.types && name !in left && e <= d ==>
               !DocumentAt(program, Defined(name), j, e)
    ensures !OnlyTexts(program, t, left)
    decreases d, t
  {
    match t {
      case Pointer(elem) => if !program.nils { TextsOnly(program, elem, left, j, d); }
      case Defined(name) =>
        var least := Least(program, name, j, d);
        TextsOnly(program, Definition(program.env, name), left - {name}, j, least - 1);
      case _ =>
    }
  }

  lemma {:induction false} Least(program: Program, name: string, j: Json, d: nat) returns (least: nat)
    requires DocumentAt(program, Defined(name), j, d)
    ensures 0 < least <= d && DocumentAt(program, Defined(name), j, least)
    ensures forall e: nat :: e < least ==> !DocumentAt(program, Defined(name), j, e)
  {
    if e: nat :| e < d && DocumentAt(program, Defined(name), j, e) {
      least := Least(program, name, j, e);
    } else {
      least := d;
    }
  }

  lemma {:induction false} DocumentIsDescribed(program: Program, t: GoType, j: Json, n: nat, d: nat)
    requires WellDeclared(program.env) && Declared(program.env, t)
    requires DocumentAt(program, t, j, d) && !Misfit(program, t, n) && AllFitInside(program, t, n)
    ensures Described(program.env, program.formats, t, j, n)
    decreases j, 1, d, t
  {
    match t {
      case Pointer(elem) =>
        if IsPointer(program.env, elem) {
          if !j.Text? {
            TextsOnly(program, elem, program.env.types.Keys, j, d);
          }
        } else {
          DocumentIsDescribed(program, elem, j, n, d);
        }
      case Slice(elem) => if elem != Uint8Type { ItemsAreDescribed(program, elem, j, n, d); }
      case Array(elem) => ItemsAreDescribed(program, elem, j, n, d);
      case InlineStruct(fields) => MembersAreDescribed(program, fields, j, n, d);
      case NamedStruct(name) =>
        assert Holds(program.env, t, n, name);
        StructFits(program, name);
        MembersAreDescribed(program, program.env.structs[name], j, Enough(program.env), d);
      case Defined(name) => if n > 0 { DocumentIsDescribed(program, Definition(program.env, name), j, n - 1, d - 1); }
      case _ =>
    }
  }

  lemma StructFits(program: Program, name: string)
    requires !HasMisfit(program, StructOf(program.env, name))
    ensures !Misfit(program, StructOf(program.env, name), Enough(program.env))
    ensures AllFitInside(program, StructOf(program.env, name), Enough(program.env))
  {
    forall other | Holds(program.env, StructOf(program.env, name), Enough(program.env), other)
      ensures !HasMisfit(program, StructOf(program.env, other))
    {
      if HasMisfit(program, StructOf(program.env, other)) {
        MisfitInside(program, StructOf(program.env, name), other);
      }
    }
  }

  lemma {:induction false} ItemsAreDescribed(program: Program, elem: GoType, j: Json, n: nat, d: nat)
    requires WellDeclared(program.env) && Declared(program.env, elem) && elem != Uint8Type
    requires ItemsDocumented(program, elem, j, d) && !Misfit(program, elem, n) && AllFitInside(program, elem, n)
    ensures ItemsDescribed(program.env, program.formats, elem, j, n)
    decreases j, 0
  {
    forall i | 0 <= i < |j.items| ensures Described(program.env, program.formats, elem, j.items[i], n) {
      DocumentIsDescribed(program, elem, j.items[i], n, d);
    }
  }

  lemma {:induction false} MembersAreDescribed(program: Program, fields: seq<Field>, j: Json, n: nat, d: nat)
    requires WellDeclared(program.env) && FieldsDeclared(program.env, fields)
    requires MembersDocumented(program, fields, j, d)
    requires !Misfit(program, InlineStruct(fields), n) && AllFitInside(program, InlineStruct(fields), n)
    ensures MembersDescribed(program.env, program.formats, fields, j, n)
    decreases j, 0
  {
    forall key, i: nat | key in j.members && Decides(fields, i, key)
      ensures Described(program.env, program.formats, fields[i].typ, j.members[key], n)
    {
      var k: nat :| Decides(fields, k, key) && DocumentAt(program, fields[k].typ, j.members[key], d);
      DecidesOnce(fields, i, k, key);
      FieldDeclared(program.env, fields, i);
      forall name | Holds(program.env, fields[i].typ, n, name)
        ensures !HasMisfit(program, StructOf(program.env, name))
      {
        assert Holds(program.env, InlineStruct(fields), n, name);
      }
      DocumentIsDescribed(program, fields[i].typ, j.members[key], n, d);
    }
  }

  lemma {:induction false} FieldDeclared(env: Declarations, fields: seq<Field>, i: nat)
    requires FieldsDeclared(env, fields) && i < |fields|
    ensures Declared(env, fields[i].typ)
  {
    if i < |fields| - 1 {
      FieldDeclared(env, fields[..|fields| - 1], i);
    }
  }

  // ----- With a misfit some document is not -----

  lemma {:induction false} NotText(program: Program, t: GoType, left: set<string>) returns (j: Json, d: nat)
    requires WellDeclared(program.env) && Declared(program.env, t) && !OnlyTexts(program, t, left)
    ensures DocumentAt(program, t, j, d) && !j.Text?
    decreases left, t
  {
    j, d := Null, 0;
    match t {
      case Uint8Type => j := Number(0.0);
      case IntegerType => j := Number(0.0);
      case FloatType => j := Number(0.0);
      case BoolType => j := Truth(true);
      case Pointer(elem) => if !program.nils { j, d := NotText(program, elem, left); }
      case Slice(elem) => if !program.nils { j := List([]); }
      case Array(elem) => j := List([]);
      case MapType => j := Object(map[]);
      case InlineStruct(_) => j := Object(map[]);
      case NamedStruct(_) => j := Object(map[]);
      case Defined(name) =>
        j, d := NotText(program, Definition(program.env, name), left - {name});
        d := d + 1;
      case _ =>
    }
  }

  lemma {:induction false} NullIsNotDescribed(env: Declarations, formats: Formats, t: GoType, n: nat)
    requires Stops(env, t, n)
    ensures !Described(env, formats, t, Null, n)
    decreases n, t
  {
    match t {
      case Pointer(elem) => if !IsPointer(env, elem) { NullIsNotDescribed(env, formats, elem, n); }
      case Defined(name) => NullIsNotDescribed(env, formats, Definition(env, name), n - 1);
      case _ =>
    }
  }

  lemma {:induction false} BadDocument(program: Program, t: GoType, n: nat) returns (j: Json, d: nat)
    requires WellDeclared(program.env) && Declared(program.env, t)
    requires Stops(program.env, t, n) && Misfit(program, t, n)
    ensures DocumentAt(program, t, j, d) && !Described(program.env, program.formats, t, j, n)
    decreases n, t
  {
    j, d := Null, 0;
    match t {
      case Pointer(elem) =>
        if program.nils {
          NullIsNotDescribed(program.env, program.formats, t, n);
        } else if IsPointer(program.env, elem) {
          j, d := NotText(program, elem, program.env.types.Keys);
        } else {
          j, d := BadDocument(program, elem, n);
        }
      case Slice(elem) =>
        if !program.nils {
          j, d := BadDocument(program, elem, n);
          j := OneItem(program, elem, j, n, d);
        }
      case Array(elem) =>
        if elem == Uint8Type {
          j := List([]);
        } else {
          j, d := BadDocument(program, elem, n);
          j := OneItem(program, elem, j, n, d);
        }
      case InlineStruct(fields) =>
        var i: nat, key :| Decides(fields, i, key) && Misfit(program, fields[i].typ, n);
        NamesIsJsonName(fields[i], key);
        FieldOf(program.env, fields, i, n);
        j, d := BadDocument(program, fields[i].typ, n);
        j := OneMember(program, fields, i, key, j, n, d);
      case Defined(name) =>
        j, d := BadDocument(program, Definition(program.env, name), n - 1);
        d := d + 1;
      case _ =>
    }
  }

  lemma OneItem(program: Program, elem: GoType, bad: Json, n: nat, d: nat) returns (j: Json)
    requires elem != Uint8Type
    requires DocumentAt(program, elem, bad, d) && !Described(program.env, program.formats, elem, bad, n)
    ensures ItemsDocumented(program, elem, j, d) && !ItemsDescribed(program.env, program.formats, elem, j, n)
  {
    j := List([bad]);
    assert j.items[0] == bad;
  }

  lemma OneMember(program: Program, fields: seq<Field>, i: nat, key: string, bad: Json, n: nat, d: nat)
    returns (j: Json)
    requires Decides(fields, i, key) && DocumentAt(program, fields[i].typ, bad, d)
    requires !Described(program.env, program.formats, fields[i].typ, bad, n)
    ensures MembersDocumented(program, fields, j, d) && !MembersDescribed(program.env, program.formats, fields, j, n)
  {
    j := Object(map[key := bad]);
    assert key in j.members && j.members[key] == bad;
  }

  /** A document of a struct that its schema does not describe makes one of any type that
      holds the struct. */
  lemma {:induction false} BadInside(program: Program, t: GoType, n: nat, name: string, bad: Json, deep: nat)
    returns (j: Json, d: nat)
    requires Holds(program.env, t, n, name) && name in program.env.structs
    requires MembersDocumented(program, program.env.structs[name], bad, deep)
    requires !MembersDescribed(program.env, program.formats, program.env.structs[name], bad, Enough(program.env))
    ensures DocumentAt(program, t, j, d) && !Described(program.env, program.formats, t, j, n)
    decreases n, t
  {
    match t {
      case Pointer(elem) => j, d := BadInside(program, elem, n, name, bad, deep);
      case Slice(elem) =>
        j, d := BadInside(program, elem, n, name, bad, deep);
        j := OneItem(program, elem, j, n, d);
      case Array(elem) =>
        j, d := BadInside(program, elem, n, name, bad, deep);
        j := OneItem(program, elem, j, n, d);
      case InlineStruct(fields) =>
        var i: nat, key :| Decides(fields, i, key) && Holds(program.env, fields[i].typ, n, name);
        j, d := BadInside(program, fields[i].typ, n, name, bad, deep);
        j := OneMember(program, fields, i, key, j, n, d);
      case NamedStruct(_) => j, d := bad, deep;
      case Defined(other) =>
        j, d := BadInside(program, Definition(program.env, other), n - 1, name, bad, deep);
        d := d + 1;
    }
  }

  lemma {:induction false} HeldIsMet(env: Declarations, t: GoType, n: nat, name: string)
    requires Holds(env, t, n, name)
    ensures name in NamesAt(env, t, n)
    decreases n, t
  {
    match t {
      case Pointer(elem) => HeldIsMet(env, elem, n, name);
      case Slice(elem) => HeldIsMet(env, elem, n, name);
      case Array(elem) => HeldIsMet(env, elem, n, name);
      case InlineStruct(fields) =>
        var i: nat, key :| Decides(fields, i, key) && Holds(env, fields[i].typ, n, name);
        HeldIsMet(env, fields[i].typ, n, name);
        NamesOfField(env, fields, i, key, n);
      case NamedStruct(_) =>
      case Defined(other) => HeldIsMet(env, Definition(env, other), n - 1, name);
    }
  }

  /** The structs met anywhere below the type stop. */
  ghost predicate StopsBelow(env: Declarations, t: GoType) {
    forall name :: Reachable(env, NamesIn(env, t), name) ==> FieldsStop(env, env.structs[name], Enough(env))
  }

  lemma StopsBelowStruct(env: Declarations, t: GoType, name: string)
    requires WellDeclared(env) && Declared(env, t) && StopsBelow(env, t) && Holds(env, t, Enough(env), name)
    ensures name in env.structs && FieldsStop(env, env.structs[name], Enough(env))
    ensures StopsBelow(env, StructOf(env, name))
  {
    HeldIsMet(env, t, Enough(env), name);
    NamesDeclared(env, t, Enough(env));
    ReachableItself(env, name);
    ReachableFromMore(env, {name}, NamesIn(env, t), name);
    forall far | Reachable(env, NamesIn(env, StructOf(env, name)), far)
      ensures FieldsStop(env, env.structs[far], Enough(env))
    {
      assert NamesIn(env, StructOf(env, name)) == FieldNames(env, name);
      ReachableThrough(env, name, far);
      ReachableFromMore(env, {name}, NamesIn(env, t), far);
    }
  }

  lemma {:induction false} BadAlong(program: Program, t: GoType, path: seq<string>) returns (j: Json, d: nat)
    requires var env := program.env; WellDeclared(env) && Declared(env, t) && StopsBelow(env, t)
    requires MisfitAt(program, t, path)
    ensures DocumentAt(program, t, j, d) && !Described(program.env, program.formats, t, j, Enough(program.env))
    decreases |path|
  {
    var env, name := program.env, path[0];
    var inside := StructOf(env, name);
    StopsBelowStruct(env, t, name);
    if |path| == 1 {
      j, d := BadDocument(program, inside, Enough(env));
    } else {
      forall i | 0 < i < |path[1..]| ensures Holds(env, StructOf(env, path[1..][i - 1]), Enough(env), path[1..][i]) {
        assert path[1..][i - 1] == path[i] && path[1..][i] == path[i + 1];
      }
      assert Holds(env, StructOf(env, path[0]), Enough(env), path[1]);
      j, d := BadAlong(program, inside, path[1..]);
    }
    j, d := BadInside(program, t, Enough(env), name, j, d);
  }

  /** The schema of a type describes each document of its values if and only if neither the
      type nor a struct inside it has a misfit. */
  lemma DescribesIff(program: Program, t: GoType)
    requires WellDeclared(program.env) && Declared(program.env, t) && Acyclic(program.env, {}, t)
    ensures (forall j :: IsDocument(program, t, j) ==>
               Described(program.env, program.formats, t, j, Enough(program.env)))
       <==> !HasMisfit(program, t)
  {
    var env := program.env;
    if HasMisfit(program, t) {
      AcyclicStops(env, {}, t);
      if Misfit(program, t, Enough(env)) {
        var j, d := BadDocument(program, t, Enough(env));
        assert IsDocument(program, t, j);
      } else {
        forall name | Reachable(env, NamesIn(env, t), name)
          ensures FieldsStop(env, env.structs[name], Enough(env))
        {
          var way :| ReachableBy(env, NamesIn(env, t), name, way);
          assert Avoids(way, {});
        }
        var path :| MisfitAt(program, t, path);
        var j, d := BadAlong(program, t, path);
        assert IsDocument(program, t, j);
      }
    } else {
      forall name | Holds(env, t, Enough(env), name) ensures !HasMisfit(program, StructOf(env, name)) {
        if HasMisfit(program, StructOf(env, name)) {
          MisfitInside(program, t, name);
        }
      }
      forall j | IsDocument(program, t, j) ensures Described(env, program.formats, t, j, Enough(env)) {
        var d: nat :| DocumentAt(program, t, j, d);
        DocumentIsDescribed(program, t, j, Enough(env), d);
      }
    }
  }

  /** So the schema that the generator gives for a type, with the components it registers,
      accepts each document of its values if and only if there is no misfit. */
  lemma AcceptsOwnValuesIff(program: Program, components: map<string, Schema>, t: GoType)
    requires WellDeclared(program.env) && Declared(program.env, t) && Acyclic(program.env, {}, t)
    requires Registry(program.env, components) && NamesIn(program.env, t) <= components.Keys
    ensures (forall j :: IsDocument(program, t, j) ==>
               Accepts(program.formats, components, SchemaOf(program.env, t), j))
       <==> !HasMisfit(program, t)
  {
    DescribesIff(program, t);
    forall j ensures Accepts(program.formats, components, SchemaOf(program.env, t), j)
                <==> Described(program.env, program.formats, t, j, Enough(program.env)) {
      AcceptsIffDescribed(program.env, program.formats, components, t, j, Enough(program.env));
    }
  }

  /** It does not accept an array of bytes, nor a pointer to a pointer to a number, nor nil. */
  lemma MisfitExamples(formats: Formats)
    ensures var program := Program(Declarations(map[], map[]), formats, false);
            var bytes, number := List([Number(1.0), Number(2.0)]), Number(5.0);
            && IsDocument(program, Array(Uint8Type), bytes)
            && !Accepts(formats, map[], SchemaOf(program.env, Array(Uint8Type)), bytes)
            && IsDocument(program, Pointer(Pointer(IntegerType)), number)
            && !Accepts(formats, map[], SchemaOf(program.env, Pointer(Pointer(IntegerType))), number)
    ensures var program := Program(Declarations(map[], map[]), formats, true);
            && IsDocument(program, Pointer(StringType), Null)
            && !Accepts(formats, map[], SchemaOf(program.env, Pointer(StringType)), Null)
  {
    var env := Declarations(map[], map[]);
    var program := Program(env, formats, false);
    var bytes, number := List([Number(1.0), Number(2.0)]), Number(5.0);
    assert DocumentAt(program, Array(Uint8Type), bytes, 0) && !Described(env, formats, Array(Uint8Type), bytes, 0);
    assert DocumentAt(program, IntegerType, number, 0);
    assert DocumentAt(program, Pointer(IntegerType), number, 0);
    assert DocumentAt(program, Pointer(Pointer(IntegerType)), number, 0);
    assert DocumentAt(Program(env, formats, true), Pointer(StringType), Null, 0);
    AcceptsIffDescribed(env, formats, map[], Array(Uint8Type), bytes, 0);
    AcceptsIffDescribed(env, formats, map[], Pointer(Pointer(IntegerType)), number, 0);
    AcceptsIffDescribed(env, formats, map[], Pointer(StringType), Null, 0);
  }
}
