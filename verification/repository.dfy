/**
 The ORM repository behind the service, as an abstract value: the `hotel`
 table is a map from id to row, and the auto-increment column is a counter.
 */
module Repository {
  import opened HotelTypes

  datatype Store = Store(hotels: map<int, Hotel>, nextId: int)

  /** Ids are positive, below the counter, and each row carries its own key. */
  ghost predicate Valid(s: Store) {
    && s.nextId >= 1
    && forall k :: k in s.hotels ==> 1 <= k < s.nextId && s.hotels[k].id == k
  }

  /** An empty table whose auto-increment counter starts at 1. */
  function Empty(): (s: Store)
    ensures Valid(s)
    ensures s.hotels == map[]
  {
    Store(map[], 1)
  }

  /**
   `repository.save(entities)` for entities without an id: each one is inserted
   under the next counter value, in order, and returned with its id.
   */
  function Insert(s: Store, batch: seq<HotelData>): (r: (Store, seq<Hotel>))
    requires Valid(s)
    ensures Valid(r.0)
    ensures r.0.nextId == s.nextId + |batch|
    ensures |r.1| == |batch|
    ensures forall i :: 0 <= i < |batch| ==> r.1[i] == Hotel(s.nextId + i, batch[i])
    ensures forall i :: 0 <= i < |batch| ==> s.nextId + i in r.0.hotels && r.0.hotels[s.nextId + i] == r.1[i]
    ensures forall k :: k in r.0.hotels <==> k in s.hotels || s.nextId <= k < s.nextId + |batch|
    ensures forall k :: k in s.hotels ==> r.0.hotels[k] == s.hotels[k]
    decreases |batch|
  {
    if batch == [] then
      (s, [])
    else
      var h := Hotel(s.nextId, batch[0]);
      var rest := Insert(Store(s.hotels[s.nextId := h], s.nextId + 1), batch[1..]);
      (rest.0, [h] + rest.1)
  }

  /** `repository.save(entity)` for an entity whose id is already stored: the row is replaced. */
  function Replace(s: Store, h: Hotel): (s': Store)
    requires Valid(s)
    requires h.id in s.hotels
    ensures Valid(s')
    ensures s'.hotels.Keys == s.hotels.Keys
    ensures s'.hotels[h.id] == h
    ensures forall k :: k in s.hotels && k != h.id ==> s'.hotels[k] == s.hotels[k]
  {
    Store(s.hotels[h.id := h], s.nextId)
  }

  /**
   `repository.find()`: every stored row once. The source imposes no order;
   this model lists rows by ascending id, the table's primary-key order.
   */
  method FindAll(s: Store) returns (hs: seq<Hotel>)
    requires Valid(s)
    ensures forall i :: 0 <= i < |hs| ==> hs[i].id in s.hotels && s.hotels[hs[i].id] == hs[i]
    ensures forall k :: k in s.hotels ==> exists i :: 0 <= i < |hs| && hs[i].id == k
    ensures forall i, j :: 0 <= i < j < |hs| ==> hs[i].id < hs[j].id
  {
    hs := [];
    var k := 1;
    while k < s.nextId
      invariant 1 <= k <= s.nextId
      invariant forall i :: 0 <= i < |hs| ==> hs[i].id in s.hotels && s.hotels[hs[i].id] == hs[i] && hs[i].id < k
      invariant forall j :: j in s.hotels && j < k ==> exists i :: 0 <= i < |hs| && hs[i].id == j
      invariant forall i, j :: 0 <= i < j < |hs| ==> hs[i].id < hs[j].id
    {
      if k in s.hotels {
        var before := hs;
        hs := hs + [s.hotels[k]];
        assert hs[|hs| - 1].id == k;
        assert forall i :: 0 <= i < |before| ==> hs[i] == before[i];
      }
      k := k + 1;
    }
  }
}
