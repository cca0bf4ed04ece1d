/**
 * The data an Overpass API query returns, as far as the map reader looks at
 * it: a list of typed elements, where node elements carry an id and a
 * latitude/longitude and way elements carry an id and the ids of their nodes.
 */
module Osm {

  datatype Option<+T> = None | Some(value: T)

  /** A latitude/longitude pair, latitude first. The values are only stored,
      never computed with. */
  datatype Coord = Coord(lat: real, lon: real)

  /** One entry of the result's "elements" list. A node's fields are optional
      so that an element missing its "id", "lat" or "lon" key can be stated.
      `Other` is any other element (a relation, say); its kind is the value
      of its "type" key. The datatype does not exclude `Other("node")`: it
      stands for an element of type "node" with none of the node keys, and
      the coordinate walk treats it as a node lacking "id". */
  datatype Element =
    | Node(id: Option<int>, lat: Option<real>, lon: Option<real>)
    | Way(wayId: int, nodes: seq<int>)
    | Other(kind: string)

  /** The value of the element's "type" key. */
  function Type(e: Element): string
  {
    match e
    case Node(_, _, _) => "node"
    case Way(_, _) => "way"
    case Other(kind) => kind
  }

  /** The exception a dictionary lookup raises for an absent key. */
  datatype KeyError = KeyError(key: string)
}
