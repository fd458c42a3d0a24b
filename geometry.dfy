/**
 * The values a pose is made of, shared by the engine's `Transform` and the
 * pose protocol: a position and an orientation.
 */
module Geometry {
  /** A `Vector3`, with real components. */
  datatype Vec3 = Vec3(x: real, y: real, z: real)

  /** The orientation handed to the sink: the identity, or the one built from three Euler angles in radians. */
  datatype Rotation = Identity | EulerRadians(x: real, y: real, z: real)

  datatype Pose = Pose(position: Vec3, rotation: Rotation)
}
