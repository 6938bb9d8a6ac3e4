/**
 * The user record that the user service reads, mutates and hands to the store,
 * and the partial record that an update carries. Where the service tests a
 * field it uses JavaScript truthiness; the predicates below spell that out.
 */
module Values {

  /** An optional field value: None stands for `undefined` or `null`. */
  datatype Option<+T> = None | Some(value: T)

  /** A coordinates value as a request body may carry it: a two-element array
      `[a, b]` or an object `{lat, lon}`. Both are objects, hence truthy. */
  datatype Coords = Pair(first: real, second: real) | LatLon(lat: real, lon: real)

  /** A user record. `name`, `email` and `password` are carried along untouched. */
  datatype User = User(name: string, email: string, password: string,
                       address: Option<string>, coordinates: Option<Coords>)

  /** `!!value` for an address: undefined, null and the empty string are falsy. */
  predicate Truthy(a: Option<string>)
  {
    a.Some? && a.value != ""
  }

  predicate HasAddress(u: User)
  {
    Truthy(u.address)
  }

  /** `!!value` for coordinates: every non-null value is an object, arrays included. */
  predicate HasCoordinates(u: User)
  {
    u.coordinates.Some?
  }

  /** The exclusivity rule of user creation: exactly one of the two is supplied. */
  predicate ExactlyOne(u: User)
  {
    HasAddress(u) != HasCoordinates(u)
  }

  /** Two records that agree on every field other than address and coordinates. */
  predicate SameProfile(u: User, v: User)
  {
    u.name == v.name && u.email == v.email && u.password == v.password
  }

  /** One key of a `Partial<User>` body: left out, or given (possibly as null). */
  datatype Field<+T> = Absent | Given(value: T)

  datatype Patch = Patch(name: Field<string>, email: Field<string>, password: Field<string>,
                         address: Field<Option<string>>, coordinates: Field<Option<Coords>>)

  function Pick<T>(f: Field<T>, current: T): T
  {
    if f.Given? then f.value else current
  }

  /** How the store applies an update body: every given key replaces the stored
      field, every absent key keeps it. */
  function Merge(u: User, p: Patch): (r: User)
    ensures p.address.Given? ==> r.address == p.address.value
    ensures p.address.Absent? ==> r.address == u.address
    ensures p.coordinates.Given? ==> r.coordinates == p.coordinates.value
    ensures p.coordinates.Absent? ==> r.coordinates == u.coordinates
    ensures p.name.Given? ==> r.name == p.name.value
    ensures p.name.Absent? ==> r.name == u.name
    ensures p.email.Given? ==> r.email == p.email.value
    ensures p.email.Absent? ==> r.email == u.email
    ensures p.password.Given? ==> r.password == p.password.value
    ensures p.password.Absent? ==> r.password == u.password
  {
    User(Pick(p.name, u.name), Pick(p.email, u.email), Pick(p.password, u.password),
         Pick(p.address, u.address), Pick(p.coordinates, u.coordinates))
  }
}
