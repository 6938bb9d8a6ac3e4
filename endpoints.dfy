/**
 * The controller's five handlers wired to the service, from a request to the
 * response it gets and the store it leaves, and sequences of such requests.
 */
module Endpoints {
  import opened Values
  import opened Geocoding
  import opened UserStore
  import Service = UserService
  import opened UserController

  datatype Request =
    | Post(body: User)
    | List
    | Get(userId: Id)
    | Put(userId: Id, patch: Patch)
    | Remove(userId: Id)

  /** One request through its handler and the one service call behind it,
      with the body or the path identifier passed on unchanged. Only a create
      can raise, and only a create, an update or a delete can change the store. */
  function Handle(geo: Geocoder, db: Db, req: Request): (r: (Handled, Db))
    ensures r.0.Raised? ==> req.Post?
    ensures req.List? || req.Get? ==> r.1 == db
    ensures req.Post? ==> r == (CreateUser(Service.CreateSpec(req.body, geo, db).reply),
                                Service.CreateSpec(req.body, geo, db).db)
    ensures req.Put? ==> r == (UpdateUser(Service.UpdateUser(db, req.userId, req.patch).0),
                               Service.UpdateUser(db, req.userId, req.patch).1)
    ensures req.Remove? ==> r == (DeleteUser(Service.DeleteUser(db, req.userId).0),
                                  Service.DeleteUser(db, req.userId).1)
    ensures req.Get? ==> r.0 == GetUserById(Service.GetUserById(db, req.userId))
    ensures req.List? ==> r.0 == GetAllUsers(Service.GetAllUsers(db))
  {
    match req
    case Post(body) =>
      var run := Service.CreateSpec(body, geo, db);
      (CreateUser(run.reply), run.db)
    case List => (GetAllUsers(Service.GetAllUsers(db)), db)
    case Get(id) => (GetUserById(Service.GetUserById(db, id)), db)
    case Put(id, patch) =>
      var (user, db') := Service.UpdateUser(db, id, patch);
      (UpdateUser(user), db')
    case Remove(id) =>
      var (deleted, db') := Service.DeleteUser(db, id);
      (DeleteUser(deleted), db')
  }

  /** Requests handled one after another, each seeing the store the previous one left. */
  function Serve(geo: Geocoder, db: Db, reqs: seq<Request>): (r: (seq<Handled>, Db))
    ensures |r.0| == |reqs|
    decreases |reqs|
  {
    if reqs == [] then ([], db)
    else
      var (h, db1) := Handle(geo, db, reqs[0]);
      var (hs, db2) := Serve(geo, db1, reqs[1..]);
      ([h] + hs, db2)
  }

  /** Serving two batches one after the other is serving their concatenation. */
  lemma {:induction false} ServeAppend(geo: Geocoder, db: Db, a: seq<Request>, b: seq<Request>)
    ensures Serve(geo, db, a + b).0 == Serve(geo, db, a).0 + Serve(geo, Serve(geo, db, a).1, b).0
    ensures Serve(geo, db, a + b).1 == Serve(geo, Serve(geo, db, a).1, b).1
    decreases |a|
  {
    if a == [] {
      assert a + b == b;
    } else {
      assert (a + b)[0] == a[0];
      assert (a + b)[1..] == a[1..] + b;
      var step := Handle(geo, db, a[0]);
      ServeAppend(geo, step.1, a[1..], b);
      var rest := Serve(geo, step.1, a[1..]);
      var tail := Serve(geo, rest.1, b);
      assert Serve(geo, db, a) == ([step.0] + rest.0, rest.1);
      assert Serve(geo, db, a + b) == ([step.0] + (rest.0 + tail.0), tail.1);
      assert [step.0] + (rest.0 + tail.0) == ([step.0] + rest.0) + tail.0;
    }
  }

  ghost predicate AllConsistent(geo: Geocoder, db: Db)
  {
    forall d :: d in db.docs ==> Consistent(geo, d.user)
  }

  // ---------------------------------------------------------------------------
  // Single requests

  /** A create body with both fields or neither gets no response: the
      exclusivity error propagates and the store is unchanged. */
  lemma RejectedCreatePropagates(geo: Geocoder, db: Db, u: User)
    requires !ExactlyOne(u)
    ensures Handle(geo, db, Post(u)) == (Raised(Service.ExclusiveMessage), db)
  {
  }

  /** A create that gets a response gets 201 with the document just appended to the store. */
  lemma CreateResponds201(geo: Geocoder, db: Db, u: User)
    ensures var (h, db') := Handle(geo, db, Post(u));
            && (h.Sent? ==> h.response.status == 201 && h.response.body.UserJson?
                            && db'.docs == db.docs + [h.response.body.doc])
            && (h.Raised? ==> db' == db)
  {
    Service.SuccessPersistsRecord(u, geo, db);
    Service.FailFast(u, geo, db);
  }

  /** Reading one user: 404 exactly when the store throws or holds no such identifier. */
  lemma GetResponds404(geo: Geocoder, db: Db, id: Id)
    ensures var (h, db') := Handle(geo, db, Get(id));
            && db' == db && h.Sent?
            && (h.response.status == 404 <==> db.fault.Some? || !Stored(db.docs, id))
  {
  }

  /** Updating: 400 exactly when the store throws or holds no such identifier,
      otherwise 200 with the document as updated; a store error changes nothing. */
  lemma PutResponds(geo: Geocoder, db: Db, id: Id, patch: Patch)
    ensures var (h, db') := Handle(geo, db, Put(id, patch));
            && h.Sent?
            && (h.response.status == 400 <==> db.fault.Some? || !Stored(db.docs, id))
            && (h.response.status != 400 ==> h.response.status == 200 && h.response.body.UserJson?
                                             && h.response.body.doc.id == id && h.response.body.doc in db'.docs)
            && (db.fault.Some? ==> db' == db)
  {
  }

  /** Deleting: 400 exactly when the store throws; a missing identifier still gets 204. */
  lemma DeleteResponds(geo: Geocoder, db: Db, id: Id)
    ensures var (h, db') := Handle(geo, db, Remove(id));
            && h.Sent?
            && (db.fault.Some? ==> h.response.status == 400 && db' == db)
            && (db.fault.None? ==> h.response == Response(204, NoBody))
            && (db.fault.None? && !Stored(db.docs, id) ==> db' == db)
  {
    if db.fault.None? && !Stored(db.docs, id) {
      Service.DeleteAbsent(db, id);
    }
  }

  /** After a delete that gets 204, reading the same identifier gets 404. */
  lemma DeleteIsTerminal(geo: Geocoder, db: Db, id: Id)
    requires Handle(geo, db, Remove(id)).0 == Sent(Response(204, NoBody))
    ensures var db' := Handle(geo, db, Remove(id)).1;
            Handle(geo, db', Get(id)).0 == Sent(Response(404, ErrorJson(NotFoundMessage)))
  {
    var db' := Handle(geo, db, Remove(id)).1;
    assert db'.fault.None?;
    assert !Stored(db'.docs, id);
  }

  /** After a create that gets 201, reading the new identifier gets 200 with the created user. */
  lemma CreateThenGet(geo: Geocoder, db: Db, u: User)
    requires Valid(db)
    requires Handle(geo, db, Post(u)).0.Sent?
    ensures var (h, db') := Handle(geo, db, Post(u));
            var d := h.response.body.doc;
            Handle(geo, db', Get(d.id)).0 == Sent(Response(200, UserJson(d)))
  {
    var (h, db') := Handle(geo, db, Post(u));
    CreateResponds201(geo, db, u);
    var d := h.response.body.doc;
    var run := Service.CreateSpec(u, geo, db);
    assert run.reply.Ok? && run.reply.value == d;
    assert d.id == db.nextId;
    assert !Stored(db.docs, d.id);
    LookupAppended(db.docs, d);
  }

  // ---------------------------------------------------------------------------
  // Sequences of requests

  lemma HandleKeepsValid(geo: Geocoder, db: Db, req: Request)
    requires Valid(db)
    ensures Valid(Handle(geo, db, req).1)
  {
    match req
    case Post(u) =>
      var run := Service.CreateSpec(u, geo, db);
      Service.FailFast(u, geo, db);
      if run.reply.Ok? {
        Service.SuccessPersistsRecord(u, geo, db);
        CreateKeepsValid(db, run.record);
      }
    case Put(id, p) => UpdateKeepsValid(db, id, p);
    case Remove(id) => DeleteKeepsValid(db, id);
    case _ =>
  }

  /** Identifiers stay unique and fresh across any sequence of requests. */
  lemma {:induction false} ServeKeepsValid(geo: Geocoder, db: Db, reqs: seq<Request>)
    requires Valid(db)
    ensures Valid(Serve(geo, db, reqs).1)
    decreases |reqs|
  {
    if reqs != [] {
      HandleKeepsValid(geo, db, reqs[0]);
      ServeKeepsValid(geo, Handle(geo, db, reqs[0]).1, reqs[1..]);
    }
  }

  lemma HandleKeepsConsistent(geo: Geocoder, db: Db, req: Request)
    requires ReverseYieldsAddress(geo) && AllConsistent(geo, db)
    requires !req.Put?
    ensures AllConsistent(geo, Handle(geo, db, req).1)
  {
    match req
    case Post(u) =>
      var run := Service.CreateSpec(u, geo, db);
      Service.FailFast(u, geo, db);
      if run.reply.Ok? {
        Service.SuccessPersistsRecord(u, geo, db);
        Service.SuccessIsConsistent(u, geo, db);
      }
    case _ =>
  }

  /** When the reverse lookup never yields a falsy address, every stored user
      keeps coordinates equal to the forward lookup of its address across any
      sequence of requests without an update. */
  lemma {:induction false} ServeKeepsConsistent(geo: Geocoder, db: Db, reqs: seq<Request>)
    requires ReverseYieldsAddress(geo) && AllConsistent(geo, db)
    requires forall i :: 0 <= i < |reqs| ==> !reqs[i].Put?
    ensures AllConsistent(geo, Serve(geo, db, reqs).1)
    decreases |reqs|
  {
    if reqs != [] {
      HandleKeepsConsistent(geo, db, reqs[0]);
      ServeKeepsConsistent(geo, Handle(geo, db, reqs[0]).1, reqs[1..]);
    }
  }

  /** An update is answered 200 yet leaves the stored address and coordinates
      out of step: the body's address is stored and the old coordinates stay. */
  lemma UpdateBreaksConsistency()
    ensures var geo := Geocoder(c => Resolved(Some("Curitiba")),
                                a => if a == "Curitiba" then Resolved(Point(-25.4, -49.3))
                                     else Resolved(Point(-8.0, -34.9)));
            var db := Db([Doc(0, User("A", "a@x.com", "s", Some("Curitiba"), Some(Pair(-25.4, -49.3))))], 1, None);
            var (h, db') := Handle(geo, db, Put(0, Patch(Absent, Absent, Absent, Given(Some("Recife")), Absent)));
            && AllConsistent(geo, db)
            && h.Sent? && h.response.status == 200
            && !AllConsistent(geo, db')
  {
    var geo := Geocoder(c => Resolved(Some("Curitiba")),
                        a => if a == "Curitiba" then Resolved(Point(-25.4, -49.3))
                             else Resolved(Point(-8.0, -34.9)));
    var db := Db([Doc(0, User("A", "a@x.com", "s", Some("Curitiba"), Some(Pair(-25.4, -49.3))))], 1, None);
    var patch := Patch(Absent, Absent, Absent, Given(Some("Recife")), Absent);
    var (h, db') := Handle(geo, db, Put(0, patch));
    assert db.docs[0] in db.docs;
    assert db'.docs[0] == Doc(0, User("A", "a@x.com", "s", Some("Recife"), Some(Pair(-25.4, -49.3))));
    assert db'.docs[0] in db'.docs;
  }
}
