/** The host document as the command sees it: elements with an identity,
    a kind, an optional category and the Mark parameter. */
module Elements {
  import opened Wrappers

  type ElementId = int

  /** Whether an element is a family instance, the only kind the command
      treats as a door. */
  datatype ElementKind = FamilyInstance | OtherElement

  /** The Mark parameter of an element: missing altogether (the parameter
      lookup yields null), present but never assigned (reading it as a
      string yields null), or holding a string value. */
  datatype MarkParameter = NoMarkParameter | Unset | Value(text: string)

  /** An element; its category is given by the category's integer id, and a
      missing category stands for a null category. */
  datatype Element = Element(id: ElementId, kind: ElementKind, category: Option<int>, mark: MarkParameter)

  /** The document: every live element by its id. */
  type Document = map<ElementId, Element>

  /** Integer value of the host's built-in doors category. */
  const DoorsCategoryId: int := -2000023

  /** The runtime faults the command can raise and does not catch. */
  datatype Fault =
    | NullReference   // a Mark parameter that does not exist was dereferenced
    | ArgumentNull    // a null Mark string was used as a dictionary key

  /** A family instance whose category is present and is the doors category. */
  predicate IsDoorInstance(e: Element)
  {
    e.kind == FamilyInstance && e.category == Some(DoorsCategoryId)
  }

  /** Looks up an id in the document; None when it denotes no live element. */
  function GetElement(doc: Document, id: ElementId): Option<Element>
  {
    if id in doc then Some(doc[id]) else None
  }
}
