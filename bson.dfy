/**
 * A parsed document as a closed tree. A document is an ordered list of
 * named elements; an element's value is a nested document, an array of
 * values, or a scalar. A scalar keeps its literal text; the library's
 * string rendering of any value is not modelled and is passed to the
 * flattener as a function.
 */
module Bson {

  datatype Node =
    | Scalar(literal: string)
    | Document(elements: seq<Element>)
    | Array(items: seq<Node>)

  datatype Element = Element(name: string, value: Node)
}
