/**
 * An abstract XML element tree: what the roster code reads from and writes
 * into a stanza payload.
 */
module Xml {
  import opened Wrappers

  /** A name qualified by its namespace. */
  datatype QName = QName(name: string, namespace: string)

  /**
   * An element: its qualified name, its attributes, its child elements in
   * document order, and its string value when it has one.
   */
  datatype Element = Element(
    qname: QName,
    attributes: map<string, string>,
    children: seq<Element>,
    text: Option<string>)

  /** `value(forAttribute:) as? String`. */
  function Attribute(e: Element, key: string): Option<string> {
    if key in e.attributes then Some(e.attributes[key]) else Option.None
  }
}
