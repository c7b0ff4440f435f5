/**
 * The slice of Kiota's code model (CodeDOM) that the DOM export reads:
 * namespaces, classes, enums, interfaces and properties, their access
 * modifiers, their children, and the type references of properties.
 *
 * The tree is an immutable value. The parent back-reference of an element is
 * not stored in the element: the export walk passes down the chain of
 * `Scope`s of the element's ancestors (outermost first), which is everything
 * a path lookup reads of a parent.
 */
module CodeDom {

  datatype Option<T> = None | Some(value: T)

  /** Access modifiers of accessible elements. */
  datatype AccessModifier = Public | Protected | Internal | Private

  /** Whether an element is an accessible element, and if so its modifier. */
  datatype Access = NotAccessible | Accessible(modifier: AccessModifier)

  /**
   * Collection kinds of a type reference. The export reads only `Complex`
   * from it, and the separate `isArray` flag for arrays, so a reference
   * whose kind is `Array` but whose `isArray` is false has no brackets.
   */
  datatype CollectionKind = NoCollection | Array | Complex

  /**
   * A type reference. `CodeType` may resolve to a user-defined type
   * (`typeDefinition`); `ComposedType` stands for every other kind of type
   * reference (union and intersection types), which only has a name.
   */
  datatype TypeRef =
    | CodeType(name: string, isArray: bool, collectionKind: CollectionKind, typeDefinition: Option<Definition>)
    | ComposedType(name: string, isArray: bool, collectionKind: CollectionKind)

  /** A resolved type definition together with the scopes of its ancestors, outermost first. */
  datatype Definition = Definition(element: Element, ancestors: seq<Scope>)

  /** Element kinds; methods, indexers, enum members and functions are `Other`. */
  datatype Kind =
    | Namespace
    | Class
    | Enum
    | Interface
    | Property(propertyType: TypeRef)
    | Other

  datatype Element = Element(kind: Kind, name: string, access: Access, children: seq<Element>)

  /** What a path lookup sees of an element: its kind and its name. */
  datatype Scope = Scope(kind: Kind, name: string)

  function ScopeOf(e: Element): Scope {
    Scope(e.kind, e.name)
  }

  /** Class, enum or interface: the kinds that have a dotted path and a definition entry. */
  predicate IsTypeKind(k: Kind) {
    k.Class? || k.Enum? || k.Interface?
  }

  predicate IsPrivate(e: Element) {
    e.access == Accessible(Private)
  }

  /** Number of elements in the tree rooted at `e`. */
  function Size(e: Element): nat
    decreases e, 1
  {
    1 + SizeAll(e.children)
  }

  function SizeAll(cs: seq<Element>): nat
    decreases cs, 0
  {
    if cs == [] then 0 else Size(cs[0]) + SizeAll(cs[1..])
  }
}
