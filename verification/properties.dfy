/**
 Properties that relate several service operations: what a later lookup sees
 after a creation, an update or an import, and how updates compose.
 */
module ServiceProperties {
  import opened HotelTypes
  import opened Repository
  import opened HotelsService
  import opened CsvImport

  /** A created hotel is found under its id with the request's fields. */
  lemma AddThenGet(s: Store, d: CreateHotelDto)
    requires Valid(s)
    requires ValidDto(d)
    ensures AddHotel(s, d).Ok?
    ensures var (s', id) := AddHotel(s, d).value;
      && id != 0
      && GetHotel(s', id).Ok?
      && GetHotel(s', id).value.id == id
      && Matches(GetHotel(s', id).value.data, d)
  {
  }

  /** A create request with status 0 is always rejected, whatever its other fields. */
  lemma AddRejectsClosedHotel(s: Store, d: CreateHotelDto)
    requires Valid(s)
    requires d.status == Some(0)
    ensures AddHotel(s, d) == Err(InvalidInput)
  {
  }

  /** After an update, a lookup of the same id returns the updated record. */
  lemma UpdateThenGet(s: Store, id: int, u: UpdateHotelDto)
    requires Valid(s)
    requires UpdateHotel(s, id, u).Ok?
    ensures var (s', h) := UpdateHotel(s, id, u).value;
      GetHotel(s', id) == Ok(h)
  {
  }

  /** Applying the same partial update twice has the effect of applying it once. */
  lemma UpdateIdempotent(s: Store, id: int, u: UpdateHotelDto)
    requires Valid(s)
    requires UpdateHotel(s, id, u).Ok?
    ensures var (s', h) := UpdateHotel(s, id, u).value;
      UpdateHotel(s', id, u) == Ok((s', h))
  {
    var (s', h) := UpdateHotel(s, id, u).value;
    assert Overlay(h.data, u) == h.data;
    assert s'.hotels[id := h] == s'.hotels;
  }

  /** An update that supplies no field returns and keeps the stored record unchanged. */
  lemma EmptyUpdateChangesNothing(s: Store, id: int)
    requires Valid(s)
    requires id != 0 && id in s.hotels
    ensures UpdateHotel(s, id, UpdateHotelDto(None, None, None, None, None, None)) == Ok((s, s.hotels[id]))
  {
    var u := UpdateHotelDto(None, None, None, None, None, None);
    assert Overlay(s.hotels[id].data, u) == s.hotels[id].data;
    assert s.hotels[id := s.hotels[id]] == s.hotels;
  }

  /** Updating only the name changes only the name of that record. */
  lemma UpdateNameOnly(s: Store, id: int, name: string)
    requires Valid(s)
    requires id != 0 && id in s.hotels
    ensures var r := UpdateHotel(s, id, UpdateHotelDto(Some(name), None, None, None, None, None));
      && r.Ok?
      && r.value.1.data == s.hotels[id].data.(name := name)
  {
  }

  /**
   An update bypasses the validator: it may store a status of 0 and an empty
   name, both of which `addHotel` and a successful import reject.
   */
  lemma UpdateBypassesValidation(s: Store, id: int)
    requires Valid(s)
    requires id != 0 && id in s.hotels
    ensures var r := UpdateHotel(s, id, UpdateHotelDto(Some(""), None, None, None, Some(0), None));
      && r.Ok?
      && r.value.0.hotels[id].data.status == 0
      && r.value.0.hotels[id].data.name == ""
      && !ValidateHotelData(Some(r.value.1.data.name), Some(r.value.1.data.address),
                            Some(r.value.1.data.email), Some(r.value.1.data.status),
                            Some(r.value.1.data.coordinate))
  {
  }

  /**
   A create, read and patch scenario: create {A, B, c@d.com, 1, "1,2"} in an
   empty store, read it back, then patch its status to 0. The patch applies
   the 0 that creation would have refused.
   */
  lemma CreateGetPatchScenario()
    ensures var d := CreateHotelDto(Some("A"), None, Some("B"), Some("c@d.com"), Some(1), Some("1,2"));
      && AddHotel(Empty(), d).Ok?
      && var (s1, id) := AddHotel(Empty(), d).value;
      && id == 1
      && GetHotel(s1, id) == Ok(Hotel(1, HotelData("A", None, "B", "c@d.com", 1, "1,2")))
      && var patched := UpdateHotel(s1, id, UpdateHotelDto(None, None, None, None, Some(0), None));
      && patched.Ok?
      && patched.value.1 == Hotel(1, HotelData("A", None, "B", "c@d.com", 0, "1,2"))
      && AddHotel(Empty(), d.(status := Some(0))) == Err(InvalidInput)
  {
  }

  /** Every id returned by a successful import names an open hotel holding its row's fields. */
  lemma ImportThenGet(s: Store, path: string, rows: seq<CsvRow>, i: int)
    requires Valid(s)
    requires AddHotelFromCsv(s, path, rows).Ok?
    requires 0 <= i < |rows|
    ensures var (s', ids) := AddHotelFromCsv(s, path, rows).value;
      && GetHotel(s', ids[i]).Ok?
      && Matches(GetHotel(s', ids[i]).value.data, MapRow(rows[i]))
      && GetHotel(s', ids[i]).value.data.status == 1
  {
  }
}
