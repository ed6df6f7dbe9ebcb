/**
 * The part of GraphQL the compiler relies on: named types and their kinds,
 * type references with `List` and `NonNull` wrappers, an abstract schema, and
 * the plain values that argument literals are converted to.
 */
module GraphQL {
  import opened Wrappers

  datatype Kind = ObjectKind | InterfaceKind | UnionKind | EnumKind | ScalarKind | InputObjectKind

  /** A named type of the schema; within one schema names are unique. */
  datatype NamedType = NamedType(name: string, kind: Kind)

  /** A type reference: a named type under any number of `List` and `NonNull` wrappers. */
  datatype TypeRef = Named(namedType: NamedType) | List(ofType: TypeRef) | NonNull(ofType: TypeRef)

  /** `getNamedType`: the named type under all wrappers. */
  function GetNamedType(t: TypeRef): NamedType {
    match t
    case Named(n) => n
    case List(inner) => GetNamedType(inner)
    case NonNull(inner) => GetNamedType(inner)
  }

  /** `isCompositeType`: object, interface and union types have fields to select. */
  predicate IsCompositeType(t: NamedType) {
    t.kind == ObjectKind || t.kind == InterfaceKind || t.kind == UnionKind
  }

  /** `isAbstractType`: interfaces and unions stand for several object types. */
  predicate IsAbstractType(t: NamedType) {
    t.kind == InterfaceKind || t.kind == UnionKind
  }

  /** `isBuiltInScalarType`: the five scalars every GraphQL schema has (section 3.5 of the GraphQL specification). */
  predicate IsBuiltInScalarType(t: NamedType) {
    t.kind == ScalarKind && t.name in ["String", "Int", "Float", "Boolean", "ID"]
  }

  /** `isMetaFieldName`: names starting with two underscores are reserved for introspection. */
  predicate IsMetaFieldName(name: string) {
    |name| >= 2 && name[..2] == "__"
  }

  datatype FieldDef = FieldDef(
    name: string,
    fieldType: TypeRef,
    description: Option<string>,
    isDeprecated: bool,
    deprecationReason: Option<string>)

  datatype OperationType = Query | Mutation | Subscription

  /**
   * The schema as the compiler consults it: the fields of each object and
   * interface type (meta fields such as `__typename` included), the object
   * types each abstract type stands for, the field types of each input object
   * in declaration order, and the root type of each operation type.
   */
  datatype Schema = Schema(
    fields: map<string, map<string, FieldDef>>,
    possibleTypes: map<string, seq<NamedType>>,
    inputFields: map<string, seq<TypeRef>>,
    rootTypes: map<OperationType, NamedType>)

  /** `getFieldDef(schema, parentType, fieldNode)`. */
  function GetFieldDef(schema: Schema, parentType: NamedType, name: string): Option<FieldDef> {
    if parentType.name in schema.fields && name in schema.fields[parentType.name]
    then Some(schema.fields[parentType.name][name])
    else None
  }

  /** `schema.getPossibleTypes(type) || []`. */
  function SchemaPossibleTypes(schema: Schema, t: NamedType): seq<NamedType> {
    if t.name in schema.possibleTypes then schema.possibleTypes[t.name] else []
  }

  /** The field types of an input object type, `Object.values(type.getFields())`. */
  function InputFieldTypes(schema: Schema, t: NamedType): seq<TypeRef> {
    if t.kind == InputObjectKind && t.name in schema.inputFields then schema.inputFields[t.name] else []
  }

  /**
   * The recognised options: `addTypename` asks for the `__typename` pre-pass,
   * `mergeInFieldsFromFragmentSpreads` is handed to the type-case analysis, and
   * the last two only affect how the Swift helpers name custom scalars.
   */
  datatype Options = Options(
    addTypename: bool,
    mergeInFieldsFromFragmentSpreads: bool,
    passthroughCustomScalars: bool,
    customScalarsPrefix: string)

  /** A JSON scalar as `JSON.stringify` receives it. */
  datatype JsonScalar = JsonString(s: string) | JsonNumber(text: string) | JsonBool(b: bool) | JsonNull

  /** The plain value an argument literal or variable reference is converted to. */
  datatype Value =
    | VariableValue(variableName: string)
    | ListValue(items: seq<Value>)
    | ObjectValue(entries: seq<ObjectEntry>)
    | ScalarValue(scalar: JsonScalar)

  datatype ObjectEntry = ObjectEntry(key: string, value: Value)
}
