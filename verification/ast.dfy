/**
 * The already-resolved Franca IDL model the generator walks. It is built
 * once by the parser (not part of this model) and never changed.
 *
 * Types follow the Franca grammar: a type reference names a primitive or a
 * named type (a struct, enumeration, array, map or typedef) of some
 * namespace; a typed element may make that an anonymous inline array.
 */
module Ast {
  import opened Wrappers

  /** Annotation tag (`@description`, `@see`, ...) to raw text. An entity
      without comments has the empty map. */
  type Comments = map<string, string>

  /** `get_comment`: the text under `tag`, if any. */
  function GetComment(comments: Comments, tag: string): (r: Option<string>)
    ensures r.Some? <==> tag in comments
    ensures r.Some? ==> r.value == comments[tag]
  {
    if tag in comments then Some(comments[tag]) else None
  }

  /** Looking a tag up sees only that tag: setting it makes it the comment,
      setting any other tag leaves the lookup as it was. */
  lemma GetCommentUpdate(comments: Comments, tag: string, other: string, text: string)
    requires other != tag
    ensures GetComment(comments[tag := text], tag) == Some(text)
    ensures GetComment(comments[other := text], tag) == GetComment(comments, tag)
    ensures GetComment(map[], tag) == None
  {
  }

  const DescriptionTag := "@description"
  const SeeTag := "@see"

  datatype TypeKind = StructType | EnumerationType | ArrayType | MapType | TypedefType

  /** The identity of a named type: where it is defined and what it is called. */
  datatype TypeDef = TypeDef(kind: TypeKind, ns: string, name: string)

  /** A type as written at a use site: a primitive, or a reference already
      resolved to the named type it denotes. */
  datatype TypeRef = Primitive(name: string) | Ref(target: TypeDef)

  /** The type of an attribute, argument or struct field. */
  datatype Type = Scalar(ref: TypeRef) | InlineArray(elem: TypeRef)

  /** An argument of a method or broadcast, or a field of a struct. */
  datatype TypedElement = TypedElement(name: string, typ: Type, comments: Comments)

  /** An enumerator, with its explicit value if the source gives one. */
  datatype Enumerator = Enumerator(name: string, value: Option<int>, comments: Comments)

  /** A member of a namespace: one entry of one of its item lists. */
  datatype Member =
    | Attribute(name: string, typ: Type, comments: Comments)
    | Method(name: string, inArgs: seq<TypedElement>, outArgs: seq<TypedElement>, comments: Comments)
    | Broadcast(name: string, outArgs: seq<TypedElement>, comments: Comments)
    | Struct(name: string, fields: seq<TypedElement>, comments: Comments)
    | Enumeration(name: string, enumerators: seq<Enumerator>, comments: Comments)
    | Array(name: string, elem: TypeRef, comments: Comments)
    | Map(name: string, key: TypeRef, value: TypeRef, comments: Comments)
  {
    /** The member is a named type others can reference. */
    predicate IsTypeDefinition() {
      Struct? || Enumeration? || Array? || Map?
    }
  }

  /** An interface or a type collection. A type collection has no
      attributes, methods or broadcasts. `typedefs` holds the names of the
      typedefs it declares; the traversal gives them no section. */
  datatype Namespace = Namespace(
    name: string,
    version: Option<string>,
    comments: Comments,
    attributes: seq<Member>,
    methods: seq<Member>,
    broadcasts: seq<Member>,
    structs: seq<Member>,
    enumerations: seq<Member>,
    arrays: seq<Member>,
    maps: seq<Member>,
    typedefs: seq<string>)

  datatype Package = Package(
    name: string,
    comments: Comments,
    typeCollections: seq<Namespace>,
    interfaces: seq<Namespace>)

  /** What the parser hands over: the packages, in load order. */
  type Model = seq<Package>

  /** The Python class name of a member (`__class__.__name__`). */
  function KindName(m: Member): string {
    match m
    case Attribute(_, _, _) => "Attribute"
    case Method(_, _, _, _) => "Method"
    case Broadcast(_, _, _) => "Broadcast"
    case Struct(_, _, _) => "Struct"
    case Enumeration(_, _, _) => "Enumeration"
    case Array(_, _, _) => "Array"
    case Map(_, _, _, _) => "Map"
  }

  /** The identity a named-type member is referenced by. */
  function DefOf(ns: string, m: Member): (d: TypeDef)
    requires m.IsTypeDefinition()
    ensures d.ns == ns && d.name == m.name
  {
    match m
    case Struct(n, _, _) => TypeDef(StructType, ns, n)
    case Enumeration(n, _, _) => TypeDef(EnumerationType, ns, n)
    case Array(n, _, _) => TypeDef(ArrayType, ns, n)
    case Map(n, _, _, _) => TypeDef(MapType, ns, n)
  }

  /** A member as recorded in the "used in" index: its kind, namespace and name. */
  datatype MemberRef = MemberRef(kind: string, ns: string, name: string)

  function RefOf(ns: string, m: Member): MemberRef {
    MemberRef(KindName(m), ns, m.name)
  }

  /** The anchor id of the section documenting `name` in namespace `ns`. */
  function Anchor(ns: string, name: string): string {
    ns + "-" + name
  }

  /** An AsciiDoc cross-reference to that section. */
  function Link(ns: string, name: string): string {
    "<<" + Anchor(ns, name) + ">>"
  }

  /** Every member of a namespace, item list by item list. */
  function AllMembers(ns: Namespace): seq<Member> {
    ns.attributes + ns.methods + ns.broadcasts + ns.structs + ns.enumerations + ns.arrays + ns.maps
  }

  /** Namespace lookup by name (`namespace[name]` succeeds): a member or a
      typedef of the namespace has that name. */
  predicate Defines(ns: Namespace, name: string) {
    || (exists i :: 0 <= i < |AllMembers(ns)| && AllMembers(ns)[i].name == name)
    || name in ns.typedefs
  }
}
