/** Coordinates, node keys and the abstract great-circle distance.

    A node key is the string `coord.join(",")`; reading a key back is
    `key.split(",").map(Number)`. For finite numbers the two are mutually
    inverse, so a key is modelled as a datatype isomorphic to a coordinate
    and the two conversions as its constructor and projection. */
module Geometry {

  /** A (longitude, latitude) pair in decimal degrees, no altitude. */
  datatype Coord = Coord(lon: real, lat: real)

  /** The serialised form of a representative coordinate. */
  datatype Key = Key(lon: real, lat: real)

  /** `coord.join(",")` */
  function KeyOf(c: Coord): (k: Key)
    ensures CoordOf(k) == c
  {
    Key(c.lon, c.lat)
  }

  /** `key.split(",").map(Number)` */
  function CoordOf(k: Key): Coord
  {
    Coord(k.lon, k.lat)
  }

  /** Reading a key back and serialising it again gives the same key. */
  lemma KeyRoundTrip(k: Key)
    ensures KeyOf(CoordOf(k)) == k
  {
  }

  /** `turf.distance(point(a), point(b), {units: 'kilometers'})`: a foreign
      function about which only nonnegativity is assumed. */
  type Metric = f: (Coord, Coord) -> real | forall a, b :: f(a, b) >= 0.0
    witness (a: Coord, b: Coord) => 0.0
}
