/**
 * The user service: account creation with its exclusivity rule and its
 * address/coordinates derivation, and the four operations that wrap one store
 * call each and turn a store error into a sentinel value.
 */
module UserService {
  import opened Values
  import opened Geocoding
  import opened UserStore

  const ExclusiveMessage := "Only one of address or coordinates should be passed!"

  /** An external call that `createUser` awaits. */
  datatype Call = ReverseLookup(coords: Coords) | ForwardLookup(address: string) | StoreCreate(record: User)

  /** What one `createUser` call leaves behind: its settled result, the store,
      the calls it made in order, and the caller's record as mutated. */
  datatype Run = Run(reply: Reply<Doc>, db: Db, calls: seq<Call>, record: User)

  /** The error message a call throws, None when it settles normally. */
  function FailureOf(geo: Geocoder, db: Db, call: Call): Option<string>
  {
    match call
    case ReverseLookup(c) => if geo.reverse(c).Failed? then Some(geo.reverse(c).message) else None
    case ForwardLookup(a) => if geo.forward(a).Failed? then Some(geo.forward(a).message) else None
    case StoreCreate(_) => db.fault
  }

  /** A mutable request body: the object `createUser` receives and updates in place. */
  class UserData {
    var name: string
    var email: string
    var password: string
    var address: Option<string>
    var coordinates: Option<Coords>

    function Value(): User
      reads this
    {
      User(name, email, password, address, coordinates)
    }

    constructor (u: User)
      ensures Value() == u
    {
      name, email, password := u.name, u.email, u.password;
      address, coordinates := u.address, u.coordinates;
    }
  }

  // ---------------------------------------------------------------------------
  // createUser, case by case

  function Persist(u: User, db: Db, prior: seq<Call>): Run
  {
    var (reply, db') := Create(db, u);
    Run(reply, db', prior + [StoreCreate(u)], u)
  }

  /** Forward-geocode the record's address and overwrite its coordinates with `[lat, lon]`. */
  function Geocode(u: User, geo: Geocoder, db: Db, prior: seq<Call>): Run
    requires HasAddress(u)
  {
    var a := u.address.value;
    match geo.forward(a)
    case Failed(m) => Run(Threw(m), db, prior + [ForwardLookup(a)], u)
    case Resolved(p) => Persist(u.(coordinates := Some(Pair(p.lat, p.lon))), db, prior + [ForwardLookup(a)])
  }

  /** The outcome of `createUser` by the kind of input: both or neither field
      rejected; coordinates only reverse-geocoded first; address only
      forward-geocoded. */
  function CreateSpec(u: User, geo: Geocoder, db: Db): (run: Run)
    ensures SameProfile(run.record, u)
    ensures |run.calls| <= 3
    ensures run.reply.Threw? ==> run.db == db
    ensures run.reply.Ok? ==> run.db.docs == db.docs + [run.reply.value] && run.reply.value.user == run.record
    ensures run.reply.Ok? ==> |run.calls| > 0 && run.calls[|run.calls| - 1] == StoreCreate(run.record)
  {
    if !ExactlyOne(u) then Run(Threw(ExclusiveMessage), db, [], u)
    else if HasCoordinates(u) then
      var c := u.coordinates.value;
      match geo.reverse(c)
      case Failed(m) => Run(Threw(m), db, [ReverseLookup(c)], u)
      case Resolved(a) =>
        var u' := u.(address := a);
        if HasAddress(u') then Geocode(u', geo, db, [ReverseLookup(c)])
        else Persist(u', db, [ReverseLookup(c)])
    else Geocode(u, geo, db, [])
  }

  /** `createUser`: validates, then fills in the missing field by mutating the
      record step by step, then persists it. Every thrown error is re-thrown
      with the same message. */
  method CreateUser(userData: UserData, geo: Geocoder, db: Db) returns (reply: Reply<Doc>, db': Db, calls: seq<Call>)
    modifies userData
    ensures Run(reply, db', calls, userData.Value()) == CreateSpec(old(userData.Value()), geo, db)
  {
    db', calls := db, [];
    if (Truthy(userData.address) && userData.coordinates.Some?)
       || (!Truthy(userData.address) && userData.coordinates.None?)
    {
      reply := Threw(ExclusiveMessage);
      return;
    }
    if userData.coordinates.Some? {
      var c := userData.coordinates.value;
      calls := calls + [ReverseLookup(c)];
      var answer := geo.reverse(c);
      if answer.Failed? {
        reply := Threw(answer.message);
        return;
      }
      userData.address := answer.value;
    }
    if Truthy(userData.address) {
      var a := userData.address.value;
      calls := calls + [ForwardLookup(a)];
      var answer := geo.forward(a);
      if answer.Failed? {
        reply := Threw(answer.message);
        return;
      }
      userData.coordinates := Some(Pair(answer.value.lat, answer.value.lon));
    }
    var record := userData.Value();
    calls := calls + [StoreCreate(record)];
    var created := Create(db, record);
    reply, db' := created.0, created.1;
  }

  // ---------------------------------------------------------------------------
  // Properties of createUser

  /** Validation comes first: an input with both fields or neither is rejected
      with the exclusivity message before any call, and only such an input makes no call. */
  lemma ValidationPrecedesEffects(u: User, geo: Geocoder, db: Db)
    ensures !ExactlyOne(u) ==> CreateSpec(u, geo, db) == Run(Threw(ExclusiveMessage), db, [], u)
    ensures CreateSpec(u, geo, db).calls == [] <==> !ExactlyOne(u)
  {
  }

  /** Coordinates only: the reverse lookup is made first with the caller's
      coordinates; a truthy address it yields is forward-geocoded, and the
      caller's coordinates are replaced by `[lat, lon]` of that lookup. */
  lemma CoordinatesOnlyLooksUpBothWays(u: User, geo: Geocoder, db: Db)
    requires HasCoordinates(u) && !HasAddress(u)
    requires geo.reverse(u.coordinates.value).Resolved?
    requires Truthy(geo.reverse(u.coordinates.value).value)
    ensures var a := geo.reverse(u.coordinates.value).value.value;
            var run := CreateSpec(u, geo, db);
            && run.calls[..2] == [ReverseLookup(u.coordinates.value), ForwardLookup(a)]
            && run.record.address == Some(a)
            && (geo.forward(a).Resolved? ==>
                  run.record.coordinates == Some(Pair(geo.forward(a).value.lat, geo.forward(a).value.lon)))
  {
  }

  /** Coordinates only: whatever the lookups answer, the first call is the
      reverse lookup of the caller's coordinates; when it throws, that is the
      only call, the record is untouched and nothing is stored. */
  lemma CoordinatesOnlyReversesFirst(u: User, geo: Geocoder, db: Db)
    requires HasCoordinates(u) && !HasAddress(u)
    ensures var run := CreateSpec(u, geo, db);
            && run.calls != [] && run.calls[0] == ReverseLookup(u.coordinates.value)
            && (geo.reverse(u.coordinates.value).Failed? ==>
                  run == Run(Threw(geo.reverse(u.coordinates.value).message), db,
                             [ReverseLookup(u.coordinates.value)], u))
  {
  }

  /** Coordinates only, but the reverse lookup resolves to a falsy address: the
      forward lookup is skipped and the record is persisted with the caller's
      coordinates and the falsy address. */
  lemma BlankReverseAddressKeepsCoordinates(u: User, geo: Geocoder, db: Db)
    requires HasCoordinates(u) && !HasAddress(u)
    requires geo.reverse(u.coordinates.value).Resolved?
    requires !Truthy(geo.reverse(u.coordinates.value).value)
    ensures var run := CreateSpec(u, geo, db);
            && run.calls == [ReverseLookup(u.coordinates.value), StoreCreate(run.record)]
            && run.record == u.(address := geo.reverse(u.coordinates.value).value)
  {
  }

  /** Address only: no reverse lookup, exactly one forward lookup of the
      caller's address, and coordinates `[lat, lon]` in that order. */
  lemma AddressOnlyLooksUpForward(u: User, geo: Geocoder, db: Db)
    requires HasAddress(u) && !HasCoordinates(u)
    ensures var a := u.address.value;
            var run := CreateSpec(u, geo, db);
            && run.calls == [ForwardLookup(a)] + (if geo.forward(a).Resolved? then [StoreCreate(run.record)] else [])
            && run.record.address == u.address
            && (geo.forward(a).Resolved? ==>
                  run.record.coordinates == Some(Pair(geo.forward(a).value.lat, geo.forward(a).value.lon)))
  {
  }

  /** On success exactly one document is appended: the mutated record, whose
      coordinates are always set and whose other fields are as given; the
      result is the document the store returned. */
  lemma SuccessPersistsRecord(u: User, geo: Geocoder, db: Db)
    ensures var run := CreateSpec(u, geo, db);
            run.reply.Ok? ==>
              && run.reply == Create(db, run.record).0
              && run.db.docs == db.docs + [run.reply.value]
              && run.reply.value.user == run.record
              && SameProfile(run.record, u)
              && HasCoordinates(run.record)
              && run.calls[|run.calls| - 1] == StoreCreate(run.record)
  {
  }

  /** When the reverse lookup never yields a falsy address, every record
      persisted carries both fields, its coordinates being the forward lookup of its address. */
  lemma SuccessIsConsistent(u: User, geo: Geocoder, db: Db)
    requires ReverseYieldsAddress(geo)
    ensures var run := CreateSpec(u, geo, db);
            run.reply.Ok? ==> Consistent(geo, run.record)
  {
  }

  /** Fail fast: every call before the last one settled normally; on success
      the last one did too; on a failure after validation the last call threw
      and its message is the one re-thrown; any failure leaves the store untouched. */
  lemma FailFast(u: User, geo: Geocoder, db: Db)
    ensures var run := CreateSpec(u, geo, db);
            && (forall i :: 0 <= i < |run.calls| - 1 ==> FailureOf(geo, db, run.calls[i]).None?)
            && (run.reply.Ok? ==> run.calls != [] && FailureOf(geo, db, run.calls[|run.calls| - 1]).None?)
            && (run.reply.Threw? ==> run.db == db)
            && (run.reply.Threw? && ExactlyOne(u) ==>
                  run.calls != [] && FailureOf(geo, db, run.calls[|run.calls| - 1]) == Some(run.reply.message))
  {
  }

  // ---------------------------------------------------------------------------
  // The four single-call operations

  /** `getAllUsers`: every document in store order, or `[]` when the store throws. */
  function GetAllUsers(db: Db): (users: seq<Doc>)
    ensures db.fault.None? ==> users == db.docs
    ensures db.fault.Some? ==> users == []
  {
    match Find(db)
    case Ok(docs) => docs
    case Threw(_) => []
  }

  /** `getUserById`: the document with that identifier, or null when there is
      none or the store throws. */
  function GetUserById(db: Db, id: Id): (user: Option<Doc>)
    ensures user.Some? <==> db.fault.None? && Stored(db.docs, id)
    ensures user.Some? ==> user.value in db.docs && user.value.id == id
  {
    match FindById(db, id)
    case Ok(found) => found
    case Threw(_) => None
  }

  /** `updateUser`: the body goes to the store as it is, with no exclusivity
      check and no geocoding; the result is the updated document, or null when
      there is none or the store throws. */
  function UpdateUser(db: Db, id: Id, patch: Patch): (result: (Option<Doc>, Db))
    ensures result.0.Some? <==> db.fault.None? && Stored(db.docs, id)
    ensures result.0.Some? ==> result.0.value.id == id && result.0.value in result.1.docs
    ensures db.fault.Some? ==> result.1 == db
    ensures db.fault.None? ==> result.1.nextId == db.nextId && result.1.fault == db.fault
    ensures |result.1.docs| == |db.docs|
    ensures forall i :: 0 <= i < |db.docs| ==>
      result.1.docs[i] == if db.fault.None? && db.docs[i].id == id
                          then Doc(id, Merge(db.docs[i].user, patch)) else db.docs[i]
  {
    var (reply, db') := FindByIdAndUpdate(db, id, patch);
    match reply
    case Ok(updated) =>
      assert updated.None? <==> !Stored(db.docs, id) by {
        if Stored(db.docs, id) {
          var d :| d in db.docs && d.id == id;
          var k :| 0 <= k < |db.docs| && db.docs[k] == d;
          assert db'.docs[k].id == id;
        }
      }
      (updated, db')
    case Threw(_) => (None, db)
  }

  /** With unique identifiers the updated document is the stored one merged with the body. */
  lemma UpdateReturnsMerged(db: Db, id: Id, patch: Patch, i: nat)
    requires Valid(db) && db.fault.None?
    requires i < |db.docs| && db.docs[i].id == id
    ensures UpdateUser(db, id, patch).0 == Some(Doc(id, Merge(db.docs[i].user, patch)))
  {
    var docs := Patched(db.docs, id, patch);
    assert UniqueIds(docs) by {
      forall j, k | 0 <= j < |docs| && 0 <= k < |docs| && docs[j].id == docs[k].id ensures j == k {
        assert db.docs[j].id == db.docs[k].id;
      }
    }
    LookupUnique(docs, id, i);
  }

  /** `deleteUser`: true whenever the store call settles, whether or not the
      identifier was stored; false when it throws, with the store untouched. */
  function DeleteUser(db: Db, id: Id): (result: (bool, Db))
    ensures result.0 <==> db.fault.None?
    ensures result.0 ==> forall d :: d in result.1.docs <==> d in db.docs && d.id != id
    ensures result.0 ==> result.1 == db.(docs := Without(db.docs, id))
    ensures !result.0 ==> result.1 == db
  {
    var (reply, db') := FindByIdAndDelete(db, id);
    match reply
    case Ok(_) => (true, db')
    case Threw(_) => (false, db)
  }

  /** Deleting an identifier that is not stored reports success and changes nothing. */
  lemma DeleteAbsent(db: Db, id: Id)
    requires db.fault.None? && !Stored(db.docs, id)
    ensures DeleteUser(db, id) == (true, db)
  {
    WithoutAbsent(db.docs, id);
  }

  /** Removing an identifier that is not stored changes nothing. */
  lemma {:induction false} WithoutAbsent(docs: seq<Doc>, id: Id)
    requires !Stored(docs, id)
    ensures Without(docs, id) == docs
  {
    if docs != [] {
      assert docs[0] in docs;
      assert !Stored(docs[1..], id) by {
        forall e | e in docs[1..] ensures e.id != id { assert e in docs; }
      }
      WithoutAbsent(docs[1..], id);
      assert docs == [docs[0]] + docs[1..];
    }
  }
}
