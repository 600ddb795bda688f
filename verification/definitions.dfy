/**
  The construction plan the compiler hands to the service container: service
  definitions with a factory, arguments, ordered `addChild` calls and tags,
  service references, expressions, and plain item attribute arrays; and the
  errors compilation can end with.
 */
module Definitions {
  import opened Results
  import opened PhpValues

  /** The extension's alias, the namespace of every registered id. */
  const Namespace: string := "rollerworks_navigation"
  const MenuPrefix: string := Namespace + ".menu."
  const BreadcrumbPrefix: string := Namespace + ".breadcrumbs."

  /** The tag under which menus and breadcrumbs are made known to the menu provider. */
  const MenuTag: string := "knp_menu.menu"

  /** The menu factory service, its class, and the method that builds an item. */
  const MenuFactoryClass: string := "Knp\\Menu\\MenuFactory"
  const MenuFactoryService: string := "knp_menu.factory"
  const CreateItemMethod: string := "createItem"

  /** The class of a definition whose factory is a configured service. */
  const ServiceFactoryClass: string := "stdClass"

  /** A tag `name` with the single attribute set `{alias: alias}`. */
  datatype Tag = Tag(name: string, alias: string)

  /** One compiled item. `Def` is a service definition built by calling
      `factoryMethod` on the service `factoryService`; `Ref` a reference to an
      existing service; `Expression` an expression object; `Plain` the item's
      attributes, handed to `addChild` as an array. Ids and expression texts
      are kept as configured. */
  datatype Instr =
    | Def(className: string, factoryService: Value, factoryMethod: Value,
          args: Entries, calls: seq<Call>, tags: seq<Tag>)
    | Ref(id: Value)
    | Expression(source: Value)
    | Plain(entries: Entries)

  /** A method call `addChild(name, child)` when `name` is present, and
      `addChild(child)` otherwise. */
  datatype Call = AddChild(name: Option<string>, child: Instr)

  /** Ids paired with their definitions, in registration order. */
  type Plan = seq<(string, Instr)>

  datatype Error =
      /** An array was required (a parameter type or `array_merge`) and
          something else was given. */
    | TypeError(expected: string)
      /** A breadcrumb names a parent that is not registered. */
    | MissingParent(parent: string, breadcrumb: string)
      /** Following the parents of a breadcrumb came back to a visited one. */
    | CircularReference(breadcrumb: string, path: seq<string>)

  /** `implode(sep, parts)`. */
  function Join(parts: seq<string>, sep: string): string {
    if |parts| == 0 then ""
    else if |parts| == 1 then parts[0]
    else parts[0] + sep + Join(parts[1..], sep)
  }

  /** The text of the exception raised for an error. */
  function Message(e: Error): string {
    match e
    case TypeError(expected) => "Argument must be of type array: " + expected
    case MissingParent(parent, breadcrumb) =>
      "Parent \"" + parent + "\" of breadcrumb \"" + breadcrumb + "\" is not registered."
    case CircularReference(breadcrumb, path) =>
      "Circular reference detected with parent of breadcrumb \"" + breadcrumb
        + "\", path: \"" + Join(path, " -> ") + "\"."
  }
}
