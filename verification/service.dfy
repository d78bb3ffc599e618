/**
 The hotel service: validation of required fields, single and batch creation,
 lookup by id, listing and partial update. The operations that change the
 store (create and update) take it and return a `Result`; a success carries
 the new store, and an error carries none, so a failing call leaves the
 caller's store as it was. The lookups return records, not a store.
 */
module HotelsService {
  import opened HotelTypes
  import opened Repository

  /** JavaScript truthiness of a string that may be null or undefined. */
  predicate Truthy(s: Option<string>) {
    s.Some? && |s.value| > 0
  }

  /** JavaScript truthiness of a number that may be null or undefined. */
  predicate TruthyNumber(n: Option<int>) {
    n.Some? && n.value != 0
  }

  /**
   `validateHotelData`: every required field must be truthy. Because the status
   is checked for truthiness too, a status of 0 ("closed") is rejected.
   */
  function ValidateHotelData(
    name: Option<string>, address: Option<string>, email: Option<string>,
    status: Option<int>, coordinate: Option<string>): (ok: bool)
    ensures ok <==>
      && name.Some? && |name.value| > 0
      && address.Some? && |address.value| > 0
      && email.Some? && |email.value| > 0
      && status.Some? && status.value != 0
      && coordinate.Some? && |coordinate.value| > 0
    ensures status == Some(0) ==> !ok
  {
    Truthy(name) && Truthy(address) && Truthy(email) && TruthyNumber(status) && Truthy(coordinate)
  }

  /** The validation `addHotel` applies to a create request. */
  predicate ValidDto(d: CreateHotelDto) {
    ValidateHotelData(d.name, d.address, d.email, d.status, d.coordinate)
  }

  /**
   An explicit presence check, which tells an absent status apart from a
   status of 0: every required field is supplied and no required string is empty.
   */
  predicate RequiredFieldsPresent(d: CreateHotelDto) {
    && Complete(d)
    && |d.name.value| > 0 && |d.address.value| > 0
    && |d.email.value| > 0 && |d.coordinate.value| > 0
  }

  /**
   The truthiness validation is the presence check with one extra rejection:
   it refuses exactly the present requests whose status is 0.
   */
  lemma ValidationIsPresenceExceptClosed(d: CreateHotelDto)
    ensures ValidDto(d) <==> RequiredFieldsPresent(d) && d.status != Some(0)
  {
  }

  /** A request that passes validation supplies every NOT NULL column. */
  lemma ValidDtoIsComplete(d: CreateHotelDto)
    requires ValidDto(d)
    ensures Complete(d)
  {
  }

  /**
   `addHotels`: copy each request into a new entity and save them as one batch.
   The records come back in request order with consecutive fresh ids.
   */
  function AddHotels(s: Store, dtos: seq<CreateHotelDto>): (r: (Store, seq<Hotel>))
    requires Valid(s)
    requires forall i :: 0 <= i < |dtos| ==> Complete(dtos[i])
    ensures Valid(r.0)
    ensures r.0.nextId == s.nextId + |dtos|
    ensures |r.1| == |dtos|
    ensures forall i :: 0 <= i < |dtos| ==>
      && r.1[i].id == s.nextId + i
      && r.1[i].id !in s.hotels
      && Matches(r.1[i].data, dtos[i])
      && r.1[i].id in r.0.hotels
      && r.0.hotels[r.1[i].id] == r.1[i]
    ensures forall k :: k in r.0.hotels <==> k in s.hotels || s.nextId <= k < s.nextId + |dtos|
    ensures forall k :: k in s.hotels ==> r.0.hotels[k] == s.hotels[k]
  {
    var batch := seq(|dtos|, i requires 0 <= i < |dtos| => FromDto(dtos[i]));
    Insert(s, batch)
  }

  /**
   `addHotel`: a request failing validation is rejected; otherwise exactly one
   record is added, holding the request's fields under a fresh id, which is
   returned. Existing records are untouched.
   */
  function AddHotel(s: Store, d: CreateHotelDto): (r: Result<(Store, int)>)
    requires Valid(s)
    ensures r.Err? <==> !ValidDto(d)
    ensures r.Err? ==> r.error == InvalidInput
    ensures r.Ok? ==>
      var (s', id) := r.value;
      && Valid(s')
      && id !in s.hotels
      && s'.hotels.Keys == s.hotels.Keys + {id}
      && s'.hotels[id].id == id
      && Matches(s'.hotels[id].data, d)
      && (forall k :: k in s.hotels ==> s'.hotels[k] == s.hotels[k])
  {
    if !ValidDto(d) then
      Err(InvalidInput)
    else
      var saved := AddHotels(s, [d]);
      Ok((saved.0, saved.1[0].id))
  }

  /** `getHotels`: every stored record exactly once, by ascending id. */
  method GetHotels(s: Store) returns (hs: seq<Hotel>)
    requires Valid(s)
    ensures forall i :: 0 <= i < |hs| ==> hs[i].id in s.hotels && s.hotels[hs[i].id] == hs[i]
    ensures forall k :: k in s.hotels ==> exists i :: 0 <= i < |hs| && hs[i].id == k
    ensures forall i, j :: 0 <= i < j < |hs| ==> hs[i].id != hs[j].id
  {
    hs := FindAll(s);
  }

  /**
   `getHotel`: a falsy id (0) is invalid input even before the store is asked;
   an id with no row is not found; otherwise the stored row is returned.
   */
  function GetHotel(s: Store, id: int): (r: Result<Hotel>)
    ensures id == 0 <==> r == Err(InvalidInput)
    ensures r == Err(NotFound) <==> id != 0 && id !in s.hotels
    ensures r.Ok? <==> id != 0 && id in s.hotels
    ensures r.Ok? ==> r.value == s.hotels[id]
  {
    if id == 0 then
      Err(InvalidInput)
    else if id !in s.hotels then
      Err(NotFound)
    else
      Ok(s.hotels[id])
  }

  /**
   The overlay `updateHotel` writes with `Object.assign` and `??`: a supplied
   field replaces the stored one (including a status of 0 or an empty string),
   a missing one keeps it.
   */
  function Overlay(h: HotelData, u: UpdateHotelDto): (h': HotelData)
    ensures u.name.Some? ==> h'.name == u.name.value
    ensures u.name.None? ==> h'.name == h.name
    ensures u.webLink.Some? ==> h'.webLink == u.webLink
    ensures u.webLink.None? ==> h'.webLink == h.webLink
    ensures u.address.Some? ==> h'.address == u.address.value
    ensures u.address.None? ==> h'.address == h.address
    ensures u.email.Some? ==> h'.email == u.email.value
    ensures u.email.None? ==> h'.email == h.email
    ensures u.status.Some? ==> h'.status == u.status.value
    ensures u.status.None? ==> h'.status == h.status
    ensures u.coordinate.Some? ==> h'.coordinate == u.coordinate.value
    ensures u.coordinate.None? ==> h'.coordinate == h.coordinate
  {
    HotelData(
      u.name.GetOr(h.name),
      u.webLink.Or(h.webLink),
      u.address.GetOr(h.address),
      u.email.GetOr(h.email),
      u.status.GetOr(h.status),
      u.coordinate.GetOr(h.coordinate))
  }

  /**
   `updateHotel`: a falsy id is invalid input, an unknown id is not found;
   otherwise the stored row is overlaid with the supplied fields and saved,
   keeping its id, and the saved row is returned. No other row changes.
   */
  function UpdateHotel(s: Store, id: int, u: UpdateHotelDto): (r: Result<(Store, Hotel)>)
    requires Valid(s)
    ensures id == 0 <==> r == Err(InvalidInput)
    ensures r == Err(NotFound) <==> id != 0 && id !in s.hotels
    ensures r.Ok? <==> id != 0 && id in s.hotels
    ensures r.Ok? ==>
      var (s', h) := r.value;
      && Valid(s')
      && h.id == id
      && h.data == Overlay(s.hotels[id].data, u)
      && s'.nextId == s.nextId
      && s'.hotels.Keys == s.hotels.Keys
      && s'.hotels[id] == h
      && (forall k :: k in s.hotels && k != id ==> s'.hotels[k] == s.hotels[k])
  {
    if id == 0 then
      Err(InvalidInput)
    else if id !in s.hotels then
      Err(NotFound)
    else
      var h := Hotel(id, Overlay(s.hotels[id].data, u));
      Ok((Replace(s, h), h))
  }
}
