/**
 * Type-name and link resolution: `get_namespace`, `get_type_name`, the
 * collapse of a type to the named type it stands for, and the anchor and
 * link formats shared by section titles, type names, "used in" lists and
 * "see also" lines.
 */
module Names {
  import opened Text
  import opened Ast

  /** What a type ultimately denotes once an array is replaced by its
      element type and a reference by its target: a primitive, or a named
      type, never an array wrapper or an alias. */
  datatype TypeKey = PrimitiveKey(name: string) | DefinedKey(def: TypeDef)

  /** `add_type_reference`'s collapsing step: an array becomes its element
      type, then a reference becomes its target. */
  function Collapse(t: Type): TypeKey {
    var r := match t
      case Scalar(r) => r
      case InlineArray(e) => e;
    match r
    case Primitive(n) => PrimitiveKey(n)
    case Ref(d) => DefinedKey(d)
  }

  /** How a collapsed type is shown: a primitive by its bare name, a named
      type as a link to the section documenting it. */
  function KeyDisplay(k: TypeKey): string {
    match k
    case PrimitiveKey(n) => n
    case DefinedKey(d) => Link(d.ns, d.name)
  }

  /** `get_type_name`: a primitive by name, an array of a primitive as
      `Array of <name>`, an array of a named type as `Array of <<ns-name>>`,
      and a reference as `<<ns-name>>` of its target (the target's namespace
      and name; the reference's own spelling plays no part). Equivalently:
      the display of the collapsed type, prefixed with `Array of ` exactly
      for arrays. */
  function TypeName(t: Type): (r: string)
    ensures r == (if t.InlineArray? then "Array of " else "") + KeyDisplay(Collapse(t))
  {
    match t
    case Scalar(Primitive(n)) => n
    case InlineArray(Primitive(n)) => "Array of " + n
    case InlineArray(Ref(d)) => "Array of <<" + d.ns + "-" + d.name + ">>"
    case Scalar(Ref(d)) => "<<" + d.ns + "-" + d.name + ">>"
  }

  /** `adoc_section_title`: the anchor line and the title line of a member's
      section. */
  function SectionTitle(ns: string, m: Member): (r: seq<string>)
    ensures |r| == 2
    ensures r[0] == "[[" + Anchor(ns, m.name) + "]]"
    ensures StartsWith(r[1], "=== " + KindName(m) + " ")
    ensures r[1][|"=== " + KindName(m) + " "|..] == m.name + "\n"
  {
    ["[[" + Anchor(ns, m.name) + "]]", "=== " + KindName(m) + " " + m.name + "\n"]
  }

  /** The link a "used in" entry renders for the member that holds the reference. */
  function MemberLink(r: MemberRef): string {
    Link(r.ns, r.name)
  }

  /** `get_adoc_link_from_name`: a link when the namespace defines `name`,
      the name itself otherwise. */
  function SeeLink(ns: Namespace, name: string): (r: string)
    ensures Defines(ns, name) ==> r == Link(ns.name, name)
    ensures !Defines(ns, name) ==> r == name
  {
    if Defines(ns, name) then "<<" + ns.name + "-" + name + ">>" else name
  }

  /** The anchor inside a section's `[[...]]` line. */
  function AnchorOf(titleLine: string): string
    requires |titleLine| >= 4
  {
    titleLine[2..|titleLine| - 2]
  }

  /** Every link the generator emits to a member lands on the anchor that
      member's section title declares: the type name of a reference to a
      named type (bare or as array element) and a "used in" entry. */
  lemma LinksMatchAnchors(ns: Namespace, m: Member)
    ensures var a := AnchorOf(SectionTitle(ns.name, m)[0]);
      && MemberLink(RefOf(ns.name, m)) == "<<" + a + ">>"
      && (m.IsTypeDefinition() ==>
            && TypeName(Scalar(Ref(DefOf(ns.name, m)))) == "<<" + a + ">>"
            && TypeName(InlineArray(Ref(DefOf(ns.name, m)))) == "Array of " + ("<<" + a + ">>"))
  {
    TitleAnchor(ns.name, m);
    if m.IsTypeDefinition() {
      TypeNameLink(DefOf(ns.name, m));
    }
  }

  lemma TitleAnchor(ns: string, m: Member)
    ensures AnchorOf(SectionTitle(ns, m)[0]) == Anchor(ns, m.name)
  {
    var a := Anchor(ns, m.name);
    assert SectionTitle(ns, m)[0] == "[[" + a + "]]";
  }

  /** A see-also token naming a member of the namespace links to that
      member's section anchor. */
  lemma SeeLinkMatchesAnchor(ns: Namespace, m: Member)
    requires Defines(ns, m.name)
    ensures SeeLink(ns, m.name) == "<<" + AnchorOf(SectionTitle(ns.name, m)[0]) + ">>"
  {
    TitleAnchor(ns.name, m);
  }

  lemma TypeNameLink(d: TypeDef)
    ensures TypeName(Scalar(Ref(d))) == Link(d.ns, d.name)
    ensures TypeName(InlineArray(Ref(d))) == "Array of " + Link(d.ns, d.name)
  {
  }
}
