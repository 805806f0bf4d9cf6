/**
  The backend's module state and its five `/api/items` route handlers. The
  `items` array and the `nextId` counter are the fields of one `Store`
  object; each handler is one method that runs as a single atomic step and
  returns the status code and body it sends.
 */
module Server {
  import opened Items

  class Store {
    /** The records, in insertion order. */
    var items: seq<Item>
    /** The id the next Create hands out. */
    var nextId: int
    /** Every id the store has ever held, including ids of deleted records. */
    ghost var Issued: set<int>

    /**
      The store invariant, plus: every stored id has been issued, and every
      issued id is below the counter, so a Create never hands out an id
      that was issued before.
     */
    ghost predicate Valid()
      reads this
    {
      && Wellformed(items, nextId)
      && (forall it :: it in items ==> it.id in Issued)
      && (forall i :: i in Issued ==> i < nextId)
    }

    /** Module start-up: the seed records, and a counter one past their largest id (1 if none). */
    constructor (seed: seq<Item>)
      requires DistinctIds(seed)
      requires forall it :: it in seed ==> Filled(it)
      ensures Valid()
      ensures items == seed && nextId == InitialNextId(seed)
      ensures Issued == set it | it in seed :: it.id
    {
      items := seed;
      nextId := InitialNextId(seed);
      Issued := set it | it in seed :: it.id;
    }

    /** POST /api/items */
    method Create(p: Payload) returns (r: Response)
      requires Valid()
      modifies this
      ensures Valid()
      ensures !Complete(p) ==>
        && r == Response(400, Message(MissingFields))
        && items == old(items) && nextId == old(nextId) && Issued == old(Issued)
      ensures Complete(p) ==>
        var it := Item(old(nextId), p.name.value, p.description.value);
        && it.id !in old(Issued)
        && items == old(items) + [it]
        && nextId == old(nextId) + 1
        && Issued == old(Issued) + {it.id}
        && r == Response(201, Record(it))
    {
      if !Complete(p) {
        return Response(400, Message(MissingFields));
      }
      var it := Item(nextId, p.name.value, p.description.value);
      AppendWellformed(items, nextId, it);
      nextId := nextId + 1;
      items := items + [it];
      Issued := Issued + {it.id};
      r := Response(201, Record(it));
    }

    /** GET /api/items: every record, in insertion order. */
    method List() returns (r: Response)
      ensures r.status == 200 && r.body.Records?
      ensures r.body.items == items
    {
      r := Response(200, Records(items));
    }

    /** GET /api/items/:id: the first record whose id matches, or 404. */
    method Get(id: RouteId) returns (r: Response)
      ensures r.status == 200 || r.status == 404
      ensures r.status == 404 <==> forall it :: it in items ==> !Matches(it, id)
      ensures r.status == 404 ==> r.body == Message(NotFound)
      ensures r.status == 200 ==>
        exists k :: 0 <= k < |items| && r.body == Record(items[k]) && Matches(items[k], id)
          && forall j :: 0 <= j < k ==> !Matches(items[j], id)
    {
      var k := FindIndex(items, id);
      if k == -1 {
        return Response(404, Message(NotFound));
      }
      r := Response(200, Record(items[k]));
    }

    /**
      PUT /api/items/:id: existence is checked before the payload, so an
      unknown id answers 404 whatever the payload.
     */
    method Update(id: RouteId, p: Payload) returns (r: Response)
      requires Valid()
      modifies this
      ensures Valid()
      ensures nextId == old(nextId) && Issued == old(Issued)
      ensures (forall it :: it in old(items) ==> !Matches(it, id)) ==>
        r == Response(404, Message(NotFound)) && items == old(items)
      ensures (exists it :: it in old(items) && Matches(it, id)) && !Complete(p) ==>
        r == Response(400, Message(MissingFields)) && items == old(items)
      ensures (exists it :: it in old(items) && Matches(it, id)) && Complete(p) ==>
        exists k :: 0 <= k < |old(items)| && Matches(old(items)[k], id)
          && items == old(items)[k := Item(old(items)[k].id, p.name.value, p.description.value)]
          && r == Response(200, Record(items[k]))
    {
      var k := FindIndex(items, id);
      if k == -1 {
        return Response(404, Message(NotFound));
      }
      if !Complete(p) {
        return Response(400, Message(MissingFields));
      }
      ReplaceWellformed(items, nextId, k, p.name.value, p.description.value);
      items := items[k := Item(items[k].id, p.name.value, p.description.value)];
      r := Response(200, Record(items[k]));
    }

    /**
      DELETE /api/items/:id: filters out every matching record and answers
      404 when the length did not change.
     */
    method Delete(id: RouteId) returns (r: Response)
      requires Valid()
      modifies this
      ensures Valid()
      ensures nextId == old(nextId) && Issued == old(Issued)
      ensures items == RemoveId(old(items), id)
      ensures (forall it :: it in old(items) ==> !Matches(it, id)) ==>
        r == Response(404, Message(NotFound)) && items == old(items)
      ensures (exists it :: it in old(items) && Matches(it, id)) ==>
        && r == Response(204, NoContent)
        && exists k :: 0 <= k < |old(items)| && Matches(old(items)[k], id)
             && items == old(items)[..k] + old(items)[k + 1..]
    {
      ghost var k := FindIndex(items, id);
      var initialLength := |items|;
      RemoveIdLength(items, id);
      RemoveIdWellformed(items, nextId, id);
      if k == -1 {
        RemoveIdAbsent(items, id);
      } else {
        RemoveIdSingle(items, id, k);
      }
      ghost var before := items;
      items := RemoveId(items, id);
      if |items| == initialLength {
        assert items == before;
        return Response(404, Message(NotFound));
      }
      assert 0 <= k < |before| && Matches(before[k], id) && items == before[..k] + before[k + 1..];
      r := Response(204, NoContent);
    }
  }
}
