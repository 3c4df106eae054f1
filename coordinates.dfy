/** The exact part of the terrain's coordinate systems.

    *world* is a Cartesian frame in metres centred at a point on the planet
    surface: x points east, y up and z south. *NED* is the local
    north-east-down frame at the same point. *warped* is world with y
    shifted to approximate the curvature of the planet; the shift depends
    only on the horizontal position (x, z), so it is a parameter here. */
module Coordinates {

  datatype Vector3 = Vector3(x: real, y: real, z: real)

  function Add(a: Vector3, b: Vector3): Vector3 {
    Vector3(a.x + b.x, a.y + b.y, a.z + b.z)
  }

  function Dot(a: Vector3, b: Vector3): real {
    a.x * b.x + a.y * b.y + a.z * b.z
  }

  function Cross(a: Vector3, b: Vector3): Vector3 {
    Vector3(a.y * b.z - a.z * b.y, a.z * b.x - a.x * b.z, a.x * b.y - a.y * b.x)
  }

  /** NED to world: east is world x, down is minus up, north is minus south. */
  function NedToWorld(ned: Vector3): Vector3 {
    Vector3(ned.y, -ned.z, -ned.x)
  }

  /** World to NED, the inverse relabelling of the axes. */
  function WorldToNed(world: Vector3): (ned: Vector3)
    ensures NedToWorld(ned) == world
  {
    Vector3(-world.z, world.x, -world.y)
  }

  /** Going through world and back is the identity on NED. */
  lemma NedWorldRoundTrip(ned: Vector3)
    ensures WorldToNed(NedToWorld(ned)) == ned
  {
  }

  /** The world axes land on the NED axes the frames' definitions name:
      east on east, up on minus down, south on minus north. */
  lemma WorldAxesInNed(t: real)
    ensures WorldToNed(Vector3(t, 0.0, 0.0)) == Vector3(0.0, t, 0.0)
    ensures WorldToNed(Vector3(0.0, t, 0.0)) == Vector3(0.0, 0.0, -t)
    ensures WorldToNed(Vector3(0.0, 0.0, t)) == Vector3(-t, 0.0, 0.0)
  {
  }

  /** The origin of world is the origin of NED. */
  lemma WorldToNedOrigin()
    ensures WorldToNed(Vector3(0.0, 0.0, 0.0)) == Vector3(0.0, 0.0, 0.0)
  {
  }

  /** Ten metres north of the origin. */
  lemma WorldToNedNorth()
    ensures WorldToNed(Vector3(0.0, 0.0, -10.0)) == Vector3(10.0, 0.0, 0.0)
  {
  }

  /** Ten metres north, ten east and five up. */
  lemma WorldToNedNorthEastUp()
    ensures WorldToNed(Vector3(10.0, 5.0, -10.0)) == Vector3(10.0, 10.0, -5.0)
  {
  }

  /** The change of frame is a rotation: it keeps lengths and angles and
      the handedness of the axes. */
  lemma WorldToNedIsRotation(a: Vector3, b: Vector3)
    ensures Dot(WorldToNed(a), WorldToNed(b)) == Dot(a, b)
    ensures WorldToNed(Cross(a, b)) == Cross(WorldToNed(a), WorldToNed(b))
    ensures WorldToNed(Add(a, b)) == Add(WorldToNed(a), WorldToNed(b))
  {
  }

  /** The curvature correction at a horizontal position (x, z). */
  type Shift = (real, real) -> real

  /** World to warped: y moves up by the shift at (x, z). */
  function WorldToWarped(shift: Shift, world: Vector3): Vector3 {
    Vector3(world.x, world.y + shift(world.x, world.z), world.z)
  }

  /** Warped to world: y moves back down by the shift at the same (x, z). */
  function WarpedToWorld(shift: Shift, warped: Vector3): (world: Vector3)
    ensures WorldToWarped(shift, world) == warped
  {
    Vector3(warped.x, warped.y - shift(warped.x, warped.z), warped.z)
  }

  /** Warping and unwarping are exact inverses in both orders. */
  lemma WarpRoundTrip(shift: Shift, world: Vector3)
    ensures WarpedToWorld(shift, WorldToWarped(shift, world)) == world
  {
  }

  /** Warping keeps the horizontal position and moves each vertical line
      rigidly: raising a point by `h` raises its warped image by `h`. */
  lemma WarpIsVertical(shift: Shift, p: Vector3, h: real)
    ensures WorldToWarped(shift, p).x == p.x && WorldToWarped(shift, p).z == p.z
    ensures WorldToWarped(shift, Add(p, Vector3(0.0, h, 0.0)))
              == Add(WorldToWarped(shift, p), Vector3(0.0, h, 0.0))
  {
  }
}
