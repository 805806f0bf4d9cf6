/**
  Values of the in-memory item service: the record, the request payload, the
  route parameter, the response, and the pure functions the route handlers
  use on the record list (the `find`, `findIndex`, `filter` and `Math.max`
  steps), with the lemmas the handlers rely on.
 */
module Items {

  datatype Option<+T> = None | Some(value: T)

  /** One stored record; the store assigns `id`, and no handler changes it afterwards. */
  datatype Item = Item(id: int, name: string, description: string)

  /** The JSON body of a POST or PUT; a field the client left out is None. */
  datatype Payload = Payload(name: Option<string>, description: Option<string>)

  /** The `:id` route parameter after `parseInt`; None stands for NaN, which equals no id. */
  type RouteId = Option<int>

  /** What a handler sends back: nothing, one record, the whole list, or a `{message}` object. */
  datatype Body = NoContent | Record(item: Item) | Records(items: seq<Item>) | Message(text: string)

  datatype Response = Response(status: int, body: Body)

  /** The 400 message for a payload without name or description. */
  const MissingFields: string := "Nama dan deskripsi harus diisi."

  /** The 404 message for an id that matches no record. */
  const NotFound: string := "Item tidak ditemukan."

  /** The three records the store starts with. */
  const Seed: seq<Item> := [
    Item(1, "Buku", "Buku pelajaran sejarah"),
    Item(2, "Pensil", "Pensil 2B"),
    Item(3, "Penghapus", "Penghapus warna putih")
  ]

  /**
    A payload field passes the handlers' `!field` test. Of the values a
    field can take here, only `undefined` and `""` are falsy.
   */
  predicate Present(field: Option<string>)
  {
    field.Some? && field.value != []
  }

  /** The payload check shared by Create and Update: `!name || !description` rejects. */
  predicate Complete(p: Payload)
  {
    Present(p.name) && Present(p.description)
  }

  /** `item.id === id`, where NaN equals nothing. */
  predicate Matches(it: Item, id: RouteId)
  {
    id.Some? && it.id == id.value
  }

  /** Both text fields of a stored record are non-empty. */
  predicate Filled(it: Item) {
    it.name != [] && it.description != []
  }

  ghost predicate DistinctIds(items: seq<Item>) {
    forall i, j :: 0 <= i < j < |items| ==> items[i].id != items[j].id
  }

  /**
    The store invariant: ids are pairwise distinct, every id is below the
    counter, and every record has both text fields.
   */
  ghost predicate Wellformed(items: seq<Item>, nextId: int) {
    DistinctIds(items) && forall it :: it in items ==> it.id < nextId && Filled(it)
  }

  /** `items.findIndex(item => item.id === id)`: the first matching index, or -1. */
  function FindIndex(items: seq<Item>, id: RouteId): (k: int)
    ensures -1 <= k < |items|
    ensures k == -1 <==> forall j :: 0 <= j < |items| ==> !Matches(items[j], id)
    ensures 0 <= k ==> Matches(items[k], id) && forall j :: 0 <= j < k ==> !Matches(items[j], id)
  {
    if items == [] then -1
    else if Matches(items[0], id) then 0
    else
      var k := FindIndex(items[1..], id);
      if k == -1 then -1 else k + 1
  }

  /** `items.filter(item => item.id !== id)`: the records that do not match, in their order. */
  function RemoveId(items: seq<Item>, id: RouteId): (r: seq<Item>)
    ensures |r| <= |items|
    ensures forall it :: it in r <==> it in items && !Matches(it, id)
  {
    if items == [] then []
    else if Matches(items[0], id) then RemoveId(items[1..], id)
    else [items[0]] + RemoveId(items[1..], id)
  }

  /** `Math.max(...items.map(item => item.id))` on a non-empty list. */
  function MaxId(items: seq<Item>): (m: int)
    requires items != []
    ensures forall it :: it in items ==> it.id <= m
    ensures exists it :: it in items && it.id == m
  {
    if |items| == 1 then items[0].id
    else
      var rest := MaxId(items[1..]);
      assert items[1] in items[1..];
      if items[0].id > rest then items[0].id else rest
  }

  /** The counter's start value: one past the largest seed id, or 1 for no seeds. */
  function InitialNextId(seed: seq<Item>): (n: int)
    ensures forall it :: it in seed ==> it.id < n
    ensures seed == [] ==> n == 1
    ensures seed != [] ==> exists it :: it in seed && it.id == n - 1
  {
    if |seed| > 0 then MaxId(seed) + 1 else 1
  }

  /** The seeded store starts its counter at 4 and satisfies the invariant. */
  lemma SeedStart()
    ensures InitialNextId(Seed) == 4
    ensures Wellformed(Seed, 4)
  {
  }

  /** Filtering out an id that no record has leaves the list as it was. */
  lemma {:induction false} RemoveIdAbsent(items: seq<Item>, id: RouteId)
    requires forall j :: 0 <= j < |items| ==> !Matches(items[j], id)
    ensures RemoveId(items, id) == items
  {
    if items != [] {
      RemoveIdAbsent(items[1..], id);
      assert items == [items[0]] + items[1..];
    }
  }

  /** The filter shortens the list exactly when some record matches. */
  lemma {:induction false} RemoveIdLength(items: seq<Item>, id: RouteId)
    ensures |RemoveId(items, id)| == |items| <==> FindIndex(items, id) == -1
  {
    if items != [] {
      RemoveIdLength(items[1..], id);
    }
  }

  /**
    When ids are distinct and the record at `k` matches, the filter removes
    exactly that record and keeps the others in their order.
   */
  lemma {:induction false} RemoveIdSingle(items: seq<Item>, id: RouteId, k: int)
    requires DistinctIds(items)
    requires 0 <= k < |items| && Matches(items[k], id)
    ensures RemoveId(items, id) == items[..k] + items[k + 1..]
  {
    var tail := items[1..];
    TailDistinct(items);
    if k == 0 {
      forall j | 0 <= j < |tail|
        ensures !Matches(tail[j], id)
      {
        assert tail[j] == items[j + 1];
        assert items[0].id != items[j + 1].id;
      }
      RemoveIdAbsent(tail, id);
      assert RemoveId(items, id) == tail;
    } else {
      assert tail[k - 1] == items[k];
      RemoveIdSingle(tail, id, k - 1);
      assert items[..k] == [items[0]] + tail[..k - 1];
      assert items[k + 1..] == tail[k..];
    }
  }

  /** Dropping the first record keeps ids distinct. */
  lemma TailDistinct(items: seq<Item>)
    requires items != [] && DistinctIds(items)
    ensures DistinctIds(items[1..])
  {
    forall i, j | 0 <= i < j < |items| - 1
      ensures items[1..][i].id != items[1..][j].id
    {
      assert items[1..][i] == items[i + 1] && items[1..][j] == items[j + 1];
    }
  }

  /** The filter keeps ids distinct. */
  lemma {:induction false} RemoveIdDistinct(items: seq<Item>, id: RouteId)
    requires DistinctIds(items)
    ensures DistinctIds(RemoveId(items, id))
  {
    if items != [] {
      var tail := items[1..];
      RemoveIdDistinct(tail, id);
      if !Matches(items[0], id) {
        var r := RemoveId(tail, id);
        forall it | it in r ensures it.id != items[0].id {
          var j :| 0 <= j < |tail| && tail[j] == it;
          assert items[j + 1] == it;
        }
        var s := [items[0]] + r;
        forall i, j | 0 <= i < j < |s| ensures s[i].id != s[j].id {
          if i == 0 {
            assert s[j] in r;
          } else {
            assert s[i] == r[i - 1] && s[j] == r[j - 1];
          }
        }
      }
    }
  }

  /** Deleting keeps the store invariant with the same counter. */
  lemma RemoveIdWellformed(items: seq<Item>, nextId: int, id: RouteId)
    requires Wellformed(items, nextId)
    ensures Wellformed(RemoveId(items, id), nextId)
    ensures forall it :: it in RemoveId(items, id) ==> !Matches(it, id)
  {
    RemoveIdDistinct(items, id);
  }

  /** The filter works piece by piece: filtering a concatenation concatenates the filtered parts, in order. */
  lemma {:induction false} RemoveIdConcat(a: seq<Item>, b: seq<Item>, id: RouteId)
    ensures RemoveId(a + b, id) == RemoveId(a, id) + RemoveId(b, id)
  {
    if a != [] {
      assert (a + b)[1..] == a[1..] + b;
      RemoveIdConcat(a[1..], b, id);
    } else {
      assert a + b == b;
    }
  }

  /** The filter drops every copy of a matching record and keeps every copy of the others. */
  lemma {:induction false} RemoveIdCount(items: seq<Item>, id: RouteId, it: Item)
    ensures multiset(RemoveId(items, id))[it] == if Matches(it, id) then 0 else multiset(items)[it]
  {
    if items != [] {
      RemoveIdCount(items[1..], id, it);
      assert items == [items[0]] + items[1..];
      assert multiset(items) == multiset([items[0]]) + multiset(items[1..]);
    }
  }

  /** Appending a record with the counter's value and both fields keeps the invariant for the stepped counter. */
  lemma AppendWellformed(items: seq<Item>, nextId: int, it: Item)
    requires Wellformed(items, nextId)
    requires it.id == nextId && Filled(it)
    ensures Wellformed(items + [it], nextId + 1)
  {
  }

  /** Rewriting name and description of one record keeps the invariant. */
  lemma ReplaceWellformed(items: seq<Item>, nextId: int, k: int, name: string, description: string)
    requires Wellformed(items, nextId)
    requires 0 <= k < |items| && name != [] && description != []
    ensures Wellformed(items[k := Item(items[k].id, name, description)], nextId)
  {
  }
}
