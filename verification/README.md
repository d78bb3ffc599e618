# Hotel service model

A Dafny model of the hotel service of a small hotel-management backend: the
component that validates hotel records, creates them one at a time or in bulk
from a CSV upload, looks them up, lists them, and applies partial updates.

The `hotel` table is an immutable `Store`: a map from id to `Hotel` plus the
auto-increment counter. Ids start at 1, and a batch insert assigns consecutive
ids in order. The operations that change the store (add, update and import)
are pure functions from a store and a request to a `Result`. A success carries
the new store. In each of them except the as-written CSV import, an error
(`InvalidInput`, `NotFound`, `MissingFields`, `EmptyFile`) carries no store, so
the caller's store is unchanged by construction. The as-written CSV import
returns a store next to its outcome, because once the path is non-empty its
save happens whatever the outcome. The lookups (`GetHotel`, `GetHotels`) take a
store and return records without one. JavaScript `null` and `undefined` are
both `None`. String truthiness is "present and non-empty". Number truthiness
is "present and non-zero".

Modules:

- `HotelTypes` (`types.dfy`): the entity, the create and update request bodies, `Option`, `Result` and the error kinds.
- `Repository` (`repository.dfy`): the store, its invariant `Valid`, batch insert, replace and find-all.
- `HotelsService` (`service.dfy`): `validateHotelData`, `addHotels`, `addHotel`, `getHotels`, `getHotel` and `updateHotel`.
- `CsvImport` (`csv.dfy`): the CSV row mapping and two versions of `addHotelFromCsv` (see Findings).
- `ServiceProperties` (`properties.dfy`): lemmas that relate several operations.

The CSV import is modelled twice, because the code reports a rejection but still saves the batch:

- `CsvImport.AddHotelFromCsvAsWritten` follows the stream callbacks as they are written.
- `CsvImport.AddHotelFromCsv` is the import that the rejection implies: nothing is saved.

Both give the caller the same outcome. They differ only in what reaches the store when a row fails validation.

## Model

| member | source | states |
|---|---|---|
| `HotelsService.ValidateHotelData` | src/hotels/hotels.service.ts:137-142 | Accepts exactly when name, address, email and coordinate are present and non-empty and status is present and non-zero; a status of 0 is always rejected |
| `HotelsService.ValidationIsPresenceExceptClosed` | src/hotels/hotels.service.ts:137-142 | Validation accepts exactly the requests an explicit presence check accepts (every required field supplied, no required string empty), except those whose status is 0 |
| `HotelsService.ValidDtoIsComplete` | src/hotels/hotels.service.ts:62-66 | A request that passes validation supplies every column the table declares NOT NULL, so the insert that follows is well-formed |
| `Repository.Insert` | src/hotels/hotels.service.ts:159 | Saving a batch of new entities gives the i-th one id `nextId + i`, adds exactly those keys, returns the records in batch order and leaves every existing row untouched; the store invariant is kept |
| `Repository.Replace` | src/hotels/hotels.service.ts:127 | Saving an entity whose id exists replaces that row only; the set of ids and the invariant are kept |
| `Repository.FindAll` | src/hotels/hotels.service.ts:74 | Lists each stored row exactly once (every listed row is stored under its id, every stored id is listed, ids strictly increase) |
| `HotelsService.AddHotels` | src/hotels/hotels.service.ts:147-166 | The i-th request becomes a new record with fresh id `nextId + i` holding the request's fields; no other key is added and existing records are unchanged |
| `HotelsService.AddHotel` | src/hotels/hotels.service.ts:62-68 | Fails with InvalidInput exactly when validation fails; otherwise the store gains exactly one record, under a fresh returned id, holding the request's fields, and all other records are unchanged |
| `HotelsService.GetHotels` | src/hotels/hotels.service.ts:72-78 | Returns every stored record exactly once and nothing else |
| `HotelsService.GetHotel` | src/hotels/hotels.service.ts:83-100 | id 0 gives InvalidInput, a non-zero id with no row gives NotFound, otherwise the stored record for that id; each outcome in both directions |
| `HotelsService.Overlay` | src/hotels/hotels.service.ts:117-125 | For each field a supplied value wins (a status of 0 or an empty string included) and a missing one keeps the stored value |
| `HotelsService.UpdateHotel` | src/hotels/hotels.service.ts:106-134 | id 0 gives InvalidInput and an unknown id gives NotFound; otherwise the record keeps its id, takes the overlay of the supplied fields, is stored and returned, and no other record or the counter changes |
| `HotelTypes.FromDto` | src/hotels/hotels.service.ts:149-158 | The entity built from a complete request holds exactly the request's fields, the optional web link included |
| `CsvImport.MapRow` | src/hotels/hotels.service.ts:36-41 | A row maps to a complete request with no web link, the row's name and email, and status 1 exactly when `is_open` is non-empty and 0 exactly when it is empty |
| `CsvImport.MapRowJoins` | src/hotels/hotels.service.ts:38-41 | The mapped address is the address, city and country joined by ", ", and the mapped coordinate is longitude and latitude joined by "," |
| `CsvImport.MappedRowValidIff` | src/hotels/hotels.service.ts:36-42 | Mapped address and coordinate are never empty, so a mapped row is valid exactly when its name, email and `is_open` are non-empty |
| `CsvImport.CoordinateRoundTrip` | src/hotels/hotels.service.ts:41 | When the longitude holds no comma, splitting the mapped coordinate at its first comma gives back the longitude and latitude |
| `CsvImport.MapRows` | src/hotels/hotels.service.ts:35-46 | The rows collected from a file are one complete request per data row |
| `CsvImport.MapRowsAt` | src/hotels/hotels.service.ts:35-46 | The list the `data` handler collects holds, at each position, the mapping of the row at that position in the file |
| `CsvImport.AddHotelFromCsv` | src/hotels/hotels.service.ts:26-57 | An empty path gives InvalidInput, any invalid row gives MissingFields, no rows gives EmptyFile; it succeeds exactly otherwise, and then returns one fresh, strictly increasing id per row in row order, each naming a new record with that row's mapped fields, with nothing else added or changed |
| `CsvImport.ImportedHotelsAreOpen` | src/hotels/hotels.service.ts:40-44 | Every hotel a successful import creates has status 1 |
| `CsvImport.OnData` | src/hotels/hotels.service.ts:35-46 | The `data` handler pushes the mapped row whatever its validity; a pending promise becomes rejected with MissingFields exactly when the row fails validation, and a settled promise is left as it was |
| `CsvImport.ReadRows` | src/hotels/hotels.service.ts:35-46 | Running the `data` handler over the rows collects one entity per row and never changes an already settled promise |
| `CsvImport.OnEnd` | src/hotels/hotels.service.ts:47-51 | The `end` handler saves the collected list whatever the promise's state; a settled promise keeps its outcome, a pending one with an empty list is rejected with EmptyFile, and otherwise it resolves with one fresh id per entity, each naming a stored record with that entity's fields |
| `CsvImport.ReadRowsCollectsAll` | src/hotels/hotels.service.ts:35-46 | The `data` handler collects every row, failing or not, and rejects a pending promise with MissingFields exactly when some row fails validation; an already settled promise is left as it was |
| `CsvImport.AddHotelFromCsvAsWritten` | src/hotels/hotels.service.ts:26-57 | The caller sees the same outcome as the intended import, but for any non-empty path the store receives the whole mapped batch; on success both versions leave the same store |
| `CsvImport.RejectedImportIsSavedAnyway` | src/hotels/hotels.service.ts:42-51 | When a row fails validation the caller gets MissingFields, yet the store is exactly what a successful import of every row, failing ones included, would have produced |
| `CsvImport.AsWrittenStoresInvalidRow` | src/hotels/hotels.service.ts:42-51 | For an open hotel followed by a nameless row, the intended import fails and saves nothing; the code fails with the same error and stores both rows, one with an empty name |
| `ServiceProperties.AddThenGet` | src/hotels/hotels.service.ts:62-100 | A valid request is created, and looking up the returned id gives a record with that id and the request's fields |
| `ServiceProperties.AddRejectsClosedHotel` | src/hotels/hotels.service.ts:62-65 | A request with status 0 is always rejected with InvalidInput |
| `ServiceProperties.UpdateThenGet` | src/hotels/hotels.service.ts:83-134 | After a successful update, looking up the same id returns the record the update returned |
| `ServiceProperties.UpdateIdempotent` | src/hotels/hotels.service.ts:117-127 | Applying the same partial update again leaves the store and the returned record as after the first application |
| `ServiceProperties.EmptyUpdateChangesNothing` | src/hotels/hotels.service.ts:117-127 | An update that supplies no field returns the stored record and leaves the store as it was |
| `ServiceProperties.UpdateNameOnly` | src/hotels/hotels.service.ts:118-125 | An update that supplies only a name changes only the name of that record |
| `ServiceProperties.UpdateBypassesValidation` | src/hotels/hotels.service.ts:117-127 | An update can store status 0 and an empty name, giving a record the creation validator would reject |
| `ServiceProperties.CreateGetPatchScenario` | src/hotels/hotels.service.ts:62-134 | Creating {A, B, c@d.com, 1, "1,2"} in an empty store returns id 1; reading it back gives those fields; patching status to 0 applies, although creating the same hotel with status 0 is rejected |
| `ServiceProperties.ImportThenGet` | src/hotels/hotels.service.ts:26-100 | Each id returned by a successful import can be looked up and names an open hotel holding that row's mapped fields |

## Left out

- InternalServerError paths are not modelled: store failures, I/O failures and the stream's `error` event (hotels.service.ts:53-55, 75-77, 97-98, 131-132, 160-165). A store or file failure is outside this model.
- The HTTP controller is not modelled: the response envelope, the mapping of exceptions to status codes, and the no-file guard before the import. It is a pass-through over the service.
- Request-validation decorators and Swagger annotations on the DTOs and entity are not modelled. The max-length checks, the column lengths and the `tinyint` width of `status` are enforced by libraries and the database, not by the service.
- Reading the uploaded file (createReadStream, csv-parser) is not modelled: the import takes the parsed data rows directly. A column missing from a row, which JavaScript would turn into the text "undefined" when concatenating, is not modelled: every column is a string.
- Numbers are unbounded integers. NaN (also falsy in JavaScript) and fractional statuses are not modelled.
- The route parameter `id` is modelled as the number its declared type says. The controller applies no integer conversion to it.
- `HotelsService.GetHotels`: the source leaves the order to the database. The model lists by ascending id, and its contract promises only that each record appears exactly once.
- src/hotels/dto/update-hotel.dto.ts is not part of this model. The update request is modelled with every field optional, as the service's `??` overlay treats it.
- The "Hotel already exists" error named in the controller's API response descriptions (hotels.controller.ts:52, 109) is not modelled, because no code raises it.
- After the import as written has already rejected, a failure of the save in the `end` handler is not modelled. JavaScript would report it as an unhandled rejection.
- Concurrency between requests is not modelled. Each operation takes and returns a whole store.

## Findings

| source | as written | input that shows it | evidently intended | confidence | as-written member | corrected member |
|---|---|---|---|---|---|---|
| src/hotels/hotels.service.ts:42-51 | a row that fails validation calls `reject` but is still pushed, and the `end` handler then saves the whole list anyway | non-empty path; rows: an open hotel, then a row with an empty name | the import is rejected and nothing is saved (no partial success) | high; not executed | `CsvImport.AddHotelFromCsvAsWritten` (shown by `CsvImport.AsWrittenStoresInvalidRow`) | `CsvImport.AddHotelFromCsv` |

The empty-file rejection at line 49 is also followed by the save at line 51.
That save gets an empty list, so it adds nothing: `AddHotelFromCsvAsWritten`
leaves the store unchanged in that case.
