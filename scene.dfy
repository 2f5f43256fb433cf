/** The host renderer, seen only through the objects it hands back.
    create_point returns an object named after the node and placed at the
    given location; create_curved_edge returns a curve between the locations
    of two such objects.  Meshes, materials, curve geometry and collections
    are not modelled.
 */
module Scene {
  import opened Sampler

  /** The object create_point(name, location) returns. */
  datatype Point<Name> = Point(name: Name, location: Coord)

  /** The object create_curved_edge(point1, point2) returns. */
  datatype Edge<Name> = Edge(from: Point<Name>, to: Point<Name>)
}
