/**
  The two GeoJSON value types the analyzer works with: a position
  (longitude, latitude, altitude) and a point geometry that carries one.
  Double-precision degrees are modelled as reals.
*/
module GeoJson {

  /** A GeoJSON position: longitude and latitude in degrees, and an altitude. */
  datatype LngLatAlt = LngLatAlt(longitude: real, latitude: real, altitude: real)

  /**
    A GeoJSON point geometry. Two points can differ (in altitude, say)
    and still share their longitude and latitude; those are the points
    the analyzer merges.
  */
  datatype Point = Point(coordinates: LngLatAlt)
}
