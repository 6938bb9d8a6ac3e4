/**
 * The user collection as the service uses it: `create`, `find`, `findById`,
 * `findByIdAndUpdate` (returning the updated document) and
 * `findByIdAndDelete`. The collection keeps its documents in insertion
 * order. `fault` stands for a store that is failing: while it holds a
 * message, every call throws an error with that message and changes nothing.
 */
module UserStore {
  import opened Values

  type Id = nat

  datatype Doc = Doc(id: Id, user: User)

  datatype Db = Db(docs: seq<Doc>, nextId: Id, fault: Option<string>)

  /** The settled state of an awaited call: it returned a value or threw an error. */
  datatype Reply<+T> = Ok(value: T) | Threw(message: string)

  /** Identifiers are unique and below the next one to be handed out. */
  ghost predicate Valid(db: Db)
  {
    && UniqueIds(db.docs)
    && forall d :: d in db.docs ==> d.id < db.nextId
  }

  ghost predicate UniqueIds(docs: seq<Doc>)
  {
    forall i, j :: 0 <= i < |docs| && 0 <= j < |docs| && docs[i].id == docs[j].id ==> i == j
  }

  predicate Stored(docs: seq<Doc>, id: Id)
  {
    exists d :: d in docs && d.id == id
  }

  /** The first document with the given identifier, if any. */
  function Lookup(docs: seq<Doc>, id: Id): (r: Option<Doc>)
    ensures r.Some? ==> r.value in docs && r.value.id == id
    ensures r.None? <==> !Stored(docs, id)
  {
    if docs == [] then None
    else if docs[0].id == id then Some(docs[0])
    else Lookup(docs[1..], id)
  }

  /** The documents other than those with the given identifier, in order. */
  function Without(docs: seq<Doc>, id: Id): (r: seq<Doc>)
    ensures forall d :: d in r <==> d in docs && d.id != id
    ensures |r| <= |docs|
  {
    if docs == [] then []
    else if docs[0].id == id then Without(docs[1..], id)
    else [docs[0]] + Without(docs[1..], id)
  }

  /** The documents with the patch applied to those with the given identifier. */
  function Patched(docs: seq<Doc>, id: Id, p: Patch): (r: seq<Doc>)
    ensures |r| == |docs|
    ensures forall i :: 0 <= i < |docs| ==>
      r[i] == if docs[i].id == id then Doc(id, Merge(docs[i].user, p)) else docs[i]
  {
    if docs == [] then []
    else [if docs[0].id == id then Doc(id, Merge(docs[0].user, p)) else docs[0]]
         + Patched(docs[1..], id, p)
  }

  function Create(db: Db, u: User): (Reply<Doc>, Db)
  {
    if db.fault.Some? then (Threw(db.fault.value), db)
    else
      var d := Doc(db.nextId, u);
      (Ok(d), db.(docs := db.docs + [d], nextId := db.nextId + 1))
  }

  function Find(db: Db): Reply<seq<Doc>>
  {
    if db.fault.Some? then Threw(db.fault.value) else Ok(db.docs)
  }

  function FindById(db: Db, id: Id): Reply<Option<Doc>>
  {
    if db.fault.Some? then Threw(db.fault.value) else Ok(Lookup(db.docs, id))
  }

  function FindByIdAndUpdate(db: Db, id: Id, p: Patch): (Reply<Option<Doc>>, Db)
  {
    if db.fault.Some? then (Threw(db.fault.value), db)
    else
      var docs := Patched(db.docs, id, p);
      (Ok(Lookup(docs, id)), db.(docs := docs))
  }

  function FindByIdAndDelete(db: Db, id: Id): (Reply<Option<Doc>>, Db)
  {
    if db.fault.Some? then (Threw(db.fault.value), db)
    else (Ok(Lookup(db.docs, id)), db.(docs := Without(db.docs, id)))
  }

  /** Removal keeps the order of the remaining documents: it distributes over concatenation. */
  lemma {:induction false} WithoutAppend(a: seq<Doc>, b: seq<Doc>, id: Id)
    ensures Without(a + b, id) == Without(a, id) + Without(b, id)
  {
    if a != [] {
      assert (a + b)[0] == a[0];
      assert (a + b)[1..] == a[1..] + b;
      WithoutAppend(a[1..], b, id);
      if a[0].id != id {
        assert Without(a, id) == [a[0]] + Without(a[1..], id);
        assert Without(a + b, id) == [a[0]] + Without(a[1..] + b, id);
      }
    } else {
      assert a + b == b;
    }
  }

  /** With unique identifiers, a document found by identifier is the one at its index. */
  lemma LookupUnique(docs: seq<Doc>, id: Id, i: nat)
    requires UniqueIds(docs)
    requires i < |docs| && docs[i].id == id
    ensures Lookup(docs, id) == Some(docs[i])
  {
    var r := Lookup(docs, id);
    var k :| 0 <= k < |docs| && docs[k] == r.value;
  }

  /** Appending a document with a fresh identifier makes it the one found by that identifier. */
  lemma {:induction false} LookupAppended(docs: seq<Doc>, d: Doc)
    requires !Stored(docs, d.id)
    ensures Lookup(docs + [d], d.id) == Some(d)
  {
    if docs != [] {
      assert (docs + [d])[1..] == docs[1..] + [d];
      assert docs[0] in docs;
      assert !Stored(docs[1..], d.id) by {
        forall e | e in docs[1..] ensures e.id != d.id { assert e in docs; }
      }
      LookupAppended(docs[1..], d);
    }
  }

  /** Removing documents keeps identifiers unique. */
  lemma {:induction false} WithoutKeepsUnique(docs: seq<Doc>, id: Id)
    requires UniqueIds(docs)
    ensures UniqueIds(Without(docs, id))
  {
    if docs != [] {
      var tail := docs[1..];
      assert UniqueIds(tail) by {
        forall i, j | 0 <= i < |tail| && 0 <= j < |tail| && tail[i].id == tail[j].id
          ensures i == j
        {
          assert docs[i + 1].id == docs[j + 1].id;
        }
      }
      WithoutKeepsUnique(tail, id);
      if docs[0].id != id {
        var rest := Without(tail, id);
        var r := [docs[0]] + rest;
        assert r == Without(docs, id);
        forall j | 0 <= j < |rest| ensures rest[j].id != docs[0].id {
          assert rest[j] in tail;
          var k :| 0 <= k < |tail| && tail[k] == rest[j];
          assert docs[k + 1] == rest[j];
        }
        forall i, j | 0 <= i < |r| && 0 <= j < |r| && r[i].id == r[j].id ensures i == j {
          if i > 0 && j > 0 {
            assert rest[i - 1].id == rest[j - 1].id;
          }
        }
      }
    }
  }

  lemma CreateKeepsValid(db: Db, u: User)
    requires Valid(db)
    ensures Valid(Create(db, u).1)
  {
    if db.fault.None? {
      var docs := db.docs + [Doc(db.nextId, u)];
      forall i, j | 0 <= i < |docs| && 0 <= j < |docs| && docs[i].id == docs[j].id ensures i == j {
        if i < |db.docs| { assert db.docs[i] in db.docs; }
        if j < |db.docs| { assert db.docs[j] in db.docs; }
      }
    }
  }

  lemma UpdateKeepsValid(db: Db, id: Id, p: Patch)
    requires Valid(db)
    ensures Valid(FindByIdAndUpdate(db, id, p).1)
  {
    if db.fault.None? {
      var docs := Patched(db.docs, id, p);
      forall d | d in docs ensures d.id < db.nextId {
        var k :| 0 <= k < |docs| && docs[k] == d;
        assert db.docs[k] in db.docs;
      }
    }
  }

  lemma DeleteKeepsValid(db: Db, id: Id)
    requires Valid(db)
    ensures Valid(FindByIdAndDelete(db, id).1)
  {
    if db.fault.None? {
      WithoutKeepsUnique(db.docs, id);
    }
  }
}
