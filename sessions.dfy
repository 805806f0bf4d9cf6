/**
  Sequences of calls against one store, stating what a client of the API
  can rely on from the handlers' contracts alone.
 */
module Sessions {
  import opened Items
  import opened Server

  /** A Delete takes effect at once: a Get on the same id then answers 404. */
  method DeleteThenGet(s: Store, id: RouteId) returns (deleted: Response, fetched: Response)
    requires s.Valid()
    modifies s
    ensures deleted.status == 204 || deleted.status == 404
    ensures fetched == Response(404, Message(NotFound))
  {
    deleted := s.Delete(id);
    fetched := s.Get(id);
  }

  /** A record that Create has just stored is what a Get on its id returns. */
  method CreateThenGet(s: Store, p: Payload) returns (created: Response, fetched: Response)
    requires s.Valid()
    requires Complete(p)
    modifies s
    ensures created.status == 201 && created.body.Record?
    ensures fetched == Response(200, created.body)
  {
    created := s.Create(p);
    var it := created.body.item;
    assert s.items[|s.items| - 1] == it;
    fetched := s.Get(Some(it.id));
  }

  /** An id freed by Delete is not handed out again by a later Create. */
  method DeleteThenCreate(s: Store, id: int, p: Payload) returns (deleted: Response, created: Response)
    requires s.Valid()
    modifies s
    ensures deleted.status == 204 && created.status == 201 ==>
      created.body.Record? && created.body.item.id != id
  {
    deleted := s.Delete(Some(id));
    created := s.Create(p);
  }

  /** One HTTP request to `/api/items`, after routing. */
  datatype Request =
    | Post(payload: Payload)
    | GetAll
    | GetOne(id: RouteId)
    | Put(id: RouteId, payload: Payload)
    | Del(id: RouteId)

  /** The record a 201 response carries is the one Create just stored. */
  predicate CreatedId(r: Response, n: int) {
    r.status == 201 && r.body.Record? && r.body.item.id == n
  }

  /**
    Requests handled one after another against one store. Every id a Create
    hands out in the run is new to the store, no two Creates in the run hand
    out the same id, and an id that a Delete freed earlier in the run is
    never handed out again.
   */
  method Serve(s: Store, reqs: seq<Request>) returns (rs: seq<Response>)
    requires s.Valid()
    modifies s
    ensures s.Valid() && |rs| == |reqs|
    ensures old(s.Issued) <= s.Issued
    ensures forall i, n :: 0 <= i < |rs| && CreatedId(rs[i], n) ==> n !in old(s.Issued)
    ensures forall i, j, n :: 0 <= i < j < |rs| && CreatedId(rs[i], n) ==> !CreatedId(rs[j], n)
    ensures forall i, j, n :: 0 <= i < j < |rs| && reqs[i] == Del(Some(n)) && rs[i].status == 204 ==>
      !CreatedId(rs[j], n)
  {
    rs := [];
    while |rs| < |reqs|
      invariant s.Valid() && |rs| <= |reqs|
      invariant old(s.Issued) <= s.Issued
      invariant forall i, n :: 0 <= i < |rs| && CreatedId(rs[i], n) ==> n !in old(s.Issued) && n in s.Issued
      invariant forall i, n :: 0 <= i < |rs| && reqs[i] == Del(Some(n)) && rs[i].status == 204 ==> n in s.Issued
      invariant forall i, j, n :: 0 <= i < j < |rs| && CreatedId(rs[i], n) ==> !CreatedId(rs[j], n)
      invariant forall i, j, n :: 0 <= i < j < |rs| && reqs[i] == Del(Some(n)) && rs[i].status == 204 ==>
        !CreatedId(rs[j], n)
      decreases |reqs| - |rs|
    {
      ghost var issued := s.Issued;
      var r: Response;
      match reqs[|rs|] {
        case Post(p) => r := s.Create(p);
        case GetAll => r := s.List();
        case GetOne(id) => r := s.Get(id);
        case Put(id, p) => r := s.Update(id, p);
        case Del(id) => r := s.Delete(id);
      }
      assert forall n :: CreatedId(r, n) ==> n !in issued;
      rs := rs + [r];
    }
  }

  /** Create, List, Update, Delete and Get on a store that starts empty. */
  method EmptyStoreSession() returns (created: Response, listed: Response, updated: Response, deleted: Response, fetched: Response)
    ensures created == Response(201, Record(Item(1, "Buku", "Buku pelajaran sejarah")))
    ensures listed == Response(200, Records([Item(1, "Buku", "Buku pelajaran sejarah")]))
    ensures updated == Response(200, Record(Item(1, "Buku2", "x")))
    ensures deleted == Response(204, NoContent)
    ensures fetched == Response(404, Message(NotFound))
  {
    var s := new Store([]);
    created := s.Create(Payload(Some("Buku"), Some("Buku pelajaran sejarah")));
    listed := s.List();
    assert s.items[0] in s.items;
    updated := s.Update(Some(1), Payload(Some("Buku2"), Some("x")));
    deleted := s.Delete(Some(1));
    fetched := s.Get(Some(1));
  }

  /** The seeded store hands out id 4 first, and an unknown id answers 404 even with an empty payload. */
  method SeededSession() returns (missing: Response, created: Response)
    ensures missing == Response(404, Message(NotFound))
    ensures created == Response(201, Record(Item(4, "Penggaris", "Penggaris 30 cm")))
  {
    SeedStart();
    var s := new Store(Seed);
    missing := s.Update(Some(7), Payload(None, Some("")));
    created := s.Create(Payload(Some("Penggaris"), Some("Penggaris 30 cm")));
  }
}
