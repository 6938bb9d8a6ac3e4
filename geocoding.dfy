/**
 * The geocoding collaborator, seen only through the two lookups the user
 * service awaits. Each lookup either resolves or throws an error carrying a
 * message; which it does, and with what value, is left uninterpreted.
 */
module Geocoding {
  import opened Values

  /** The `{lat, lon}` object a forward lookup resolves to. */
  datatype Point = Point(lat: real, lon: real)

  /** The settled state of an awaited lookup. */
  datatype Answer<+T> = Resolved(value: T) | Failed(message: string)

  /** `reverse` resolves to whatever the upstream reply names as the address,
      which may be missing (None) or empty; `forward` resolves to a point. */
  datatype Geocoder = Geocoder(reverse: Coords -> Answer<Option<string>>,
                               forward: string -> Answer<Point>)

  /** A reverse geocoder that never resolves to a falsy address. */
  ghost predicate ReverseYieldsAddress(geo: Geocoder)
  {
    forall c :: geo.reverse(c).Resolved? ==> Truthy(geo.reverse(c).value)
  }

  /** The record's coordinates are `[lat, lon]` of the forward lookup of its address. */
  ghost predicate Consistent(geo: Geocoder, u: User)
  {
    && HasAddress(u)
    && geo.forward(u.address.value).Resolved?
    && u.coordinates == Some(Pair(geo.forward(u.address.value).value.lat,
                                  geo.forward(u.address.value).value.lon))
  }
}
