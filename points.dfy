/** Values shared by the decoder and the octree builder. */
module Points {

  /** The usual optional value; `None` stands for a C# `null` reference. */
  datatype Option<+T> = None | Some(value: T)

  /**
   * A position with integer coordinates (the C# `Point3D`, whose fields are `long`).
   * The octree stores its points with this type too: the builder only ever reads the
   * X, Y and Z of a `PointDataRecord`, and the caller fills nothing else.
   */
  datatype Point3D = Point3D(x: int, y: int, z: int)

  datatype Axis = X | Y | Z

  function Coord(p: Point3D, a: Axis): int {
    match a
    case X => p.x
    case Y => p.y
    case Z => p.z
  }
}
