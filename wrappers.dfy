/** Option and Result, used for the absent values and error returns of the system. */
module Wrappers {

  datatype Option<+T> = None | Some(value: T) {
    function GetOr(default: T): T {
      match this
      case Some(v) => v
      case None => default
    }
  }

  datatype Result<+R, +E> = Success(value: R) | Failure(error: E)
}

/** Identifiers and positions shared by the ride and group documents. */
module Basics {

  /** A user's document id (a MongoDB ObjectId, as its hex string). */
  type UserId = string

  /** A ride's document id. */
  type RideId = string

  /**
   * A GeoJSON position `[longitude, latitude]`. The stored numbers are
   * decimal degrees; here they are fixed point, in millionths of a degree.
   */
  datatype Coord = Coord(lng: int, lat: int)
}
