/**
 * The engine objects the core reads and writes: the camera texture, the
 * scratch `Texture2D` and the `Transform` that receives poses. Pixel data,
 * JPEG encoding and the rendering of the pose are not modelled.
 */
module UnityEngine {
  import opened Geometry

  /** The camera's `WebCamTexture`, by its current size. */
  datatype CameraTexture = CameraTexture(width: nat, height: nat)

  /** A texture is allocated with a fixed size. */
  class Texture2D {
    const width: nat
    const height: nat

    constructor (width: nat, height: nat)
      ensures this.width == width && this.height == height
    {
      this.width := width;
      this.height := height;
    }
  }

  /**
   * The spatial sink: a `Transform` whose position and rotation are
   * replaced together by `SetPositionAndRotation`. `writes` records every
   * such update, in order.
   */
  class Transform {
    var position: Vec3
    var rotation: Rotation
    ghost var writes: seq<Pose>

    constructor ()
      ensures position == Vec3(0.0, 0.0, 0.0) && rotation == Identity && writes == []
    {
      position := Vec3(0.0, 0.0, 0.0);
      rotation := Identity;
      writes := [];
    }

    /** Both parts change in one step, so no reader sees half an update. */
    method SetPositionAndRotation(p: Vec3, r: Rotation)
      modifies this
      ensures position == p && rotation == r
      ensures writes == old(writes) + [Pose(p, r)]
    {
      position, rotation := p, r;
      writes := writes + [Pose(p, r)];
    }
  }
}
