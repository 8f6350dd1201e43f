# Hospital aggregate store — a Dafny model

This project models the backend of a hospital directory. Each hospital is one
document. It holds an ordered list of departments. Each department holds an
ordered list of doctors and two ordered lists of names: equipment and
facilities. The request handlers load one hospital document by id and select a
department, either by the first department whose name matches or by its
generated sub-id. They then change the nested lists in place and write the
document back. Every handler answers with success, Not found (404), a 400
refusal ("Hospital already registered!", "Enter Facilities"), or 500 when the
lookup or the save throws. Of the 500 answers the model has one. The schema's
enum validator rejecting an availability value fails the save, and that is
`InvalidAvailability`. The other 500 causes are listed under "Left out". An
error answer never changes the stored data. `Error.Status()` gives each error's
response code, and each store method's `ensures` states the codes it can
answer with.

Modules, following the two source files:

- `HospitalSchema` (schema.dfy) covers backend/models/Hospital.js. It has the
  `Doctor`, `Department` and `Hospital` records and the two-valued
  `Availability` enum. It also defines the well-formedness of generated ids and
  the uniqueness of contact numbers.
- `Lookup` (lookup.dfy) covers the array primitives the handlers use. These are
  first-match search (`find`, `findIndex`, the sub-document `id(...)` lookup)
  and `splice(i, 1)`.
- `HospitalDocument` (document.dfy) covers what each handler does to the one
  document it loaded, as a function returning a `Result`. Lemmas relate
  several calls.
- `DoctorRoster` (roster.dfy) covers the flat doctor list of
  getDoctorsByHospitalId and its order.
- `HospitalController` (store.dfy) has the class `HospitalStore`. Its fields are
  the collection (`hospitals: map<Id, Hospital>`) and an id counter. It has one
  method per handler, and `Valid()` is the collection invariant. Each method's
  `ensures` gives the new collection in terms of the old one and the document
  function. Every error outcome leaves `hospitals` and `nextId` unchanged. The
  client method `CityGeneralScenario` goes through register, add department,
  add doctor, list doctors, delete department and list doctors again. It shows
  what each call answers, using only the contracts.

Data model (datatypes, which the table below cannot list):

- `HospitalSchema.Doctor` (backend/models/Hospital.js:3-7) holds a generated id,
  a name, a specialization and an `Availability`.
- `HospitalSchema.Availability` (backend/models/Hospital.js:6) is the enum
  `Available | Unavailable`.
- `HospitalSchema.Department` (backend/models/Hospital.js:10-17) holds a
  generated id, a name, the two bed counts, and ordered lists of doctors,
  equipment names and facility names.
- `HospitalSchema.Hospital` (backend/models/Hospital.js:20-28) holds the six
  string fields and the ordered list of departments. Its id is the key it is
  stored under.
- `DoctorRoster.DoctorEntry` and `DoctorRoster.DepartmentRef`
  (backend/Controllers/Hospital.js:258-266) are one entry of the flat doctor
  list and its department summary.
- `HospitalDocument.Error` and `HospitalDocument.Result` are the handlers'
  outcomes. Each error is one of the source's answers: 404 for
  `Hospital|Department|Doctor not found`, 400 for `Hospital already
  registered!` and `Enter Facilities`, and 500 for a failed enum validation.

Generated ObjectIds are modelled by one counter. The counter hands out hospital
ids, department sub-ids and doctor sub-ids. The store invariant says three
things. Every id is below the counter. Sub-ids are distinct within their list.
Contact numbers are unique across hospitals. Bed counts are `int`. As in the
code, nothing relates `availableBeds` to `totalBeds`, duplicate department
names are accepted, and equipment is not deduplicated.

Three behaviours of the code that a reader might not expect, all kept by the
model:

- updateFacilities rejects only an absent or falsy `facilities`. An empty list
  is accepted and clears the facilities. The department is looked up before the
  field is checked, so a missing department answers 404 even without
  `facilities`.
- deleteDoctor, like addDoctor and updateFacilities, selects the department by
  its sub-id; updateEquipment, deleteDepartment and updateBedCount select it by
  name.
- The schema gives bed counts no bound. The model has no non-negativity bound
  and no ordering between the two counts.

## Model

| member | source | states |
|---|---|---|
| `Lookup.FirstIndex` | backend/Controllers/Hospital.js:200-202 | Returns the index of the first element that satisfies the predicate; no earlier element satisfies it. Returns None exactly when no element satisfies it. |
| `Lookup.RemoveAt` | backend/Controllers/Hospital.js:208 | Removing one element shortens the list by one. Elements before it keep their positions; elements after it move down by one. |
| `HospitalSchema.ParseAvailability` | backend/models/Hospital.js:6 | Accepts exactly the two enum spellings "Available" and "Unavailable". An accepted value prints back to the input string. |
| `HospitalSchema.AvailabilityRoundTrip` | backend/models/Hospital.js:6 | Every availability value parses back from its stored spelling. |
| `HospitalSchema.ContactsUnique` | backend/models/Hospital.js:25 | The `unique` index on contactNumber: two stored hospitals with the same contact number are the same hospital. |
| `HospitalController.ContactTaken` | backend/Controllers/Hospital.js:10-12 | `findOne({ contactNumber })` finds a document: some stored hospital has that contact number. |
| `HospitalController.TakenContactHasOneOwner` | backend/models/Hospital.js:25 | Under the unique index, a contact number on file belongs to exactly one stored hospital, which is the document `findOne` returns. |
| `HospitalController.StoreInvariant` | backend/models/Hospital.js:3-28 | The collection's consistency: contact numbers are unique, every id handed out is below the counter, and sub-ids are distinct within their list. |
| `HospitalController.HospitalStore.Valid` | backend/models/Hospital.js:3-28 | The store's fields satisfy the collection invariant. Every state-changing method preserves it. |
| `HospitalDocument.Error.Status` | backend/Controllers/Hospital.js:115-189 | The response code of each error. 404 for the three Not found answers (:118-125 and, for the doctor, :233-234). 400 for the two refusals (Enter Facilities at :178-179, and Hospital already registered at :12-13). 500 for the save that the enum at backend/models/Hospital.js:6 rejects, caught at :135-137. |
| `HospitalDocument.NewDepartment` | backend/Controllers/Hospital.js:95-102 | The record addDepartment pushes: the given name and bed counts, a generated sub-id, and empty doctors, equipment and facilities. |
| `DoctorRoster.EntryOf` | backend/Controllers/Hospital.js:258-266 | The object pushed for one doctor: its id, name, specialization and availability, with its department's id and name. |
| `DoctorRoster.DoctorEntries` | backend/Controllers/Hospital.js:255-269 | The flat doctor list: for each department in order, its doctors annotated in order. `CollectDoctors` is proved equal to it. |
| `DoctorRoster.DoctorCount` | backend/Controllers/Hospital.js:256-257 | The total number of doctors across the departments, which is the flat list's length by `DoctorEntriesLength`. |
| `HospitalDocument.DepartmentByName` | backend/Controllers/Hospital.js:151 | Selects the first department with the name; later namesakes are never selected. Returns None exactly when no department has the name. |
| `HospitalDocument.DepartmentById` | backend/Controllers/Hospital.js:122 | Selects the first department with the sub-id; None exactly when no department has it. |
| `HospitalDocument.DoctorById` | backend/Controllers/Hospital.js:229-231 | Selects the first doctor with the id; None exactly when no doctor has it. |
| `HospitalDocument.SameNamesSameSelection` | backend/Controllers/Hospital.js:151 | A name lookup depends only on the names. Edits that keep every name keep the selected department. |
| `HospitalDocument.SameIdsSameSelection` | backend/Controllers/Hospital.js:172 | A sub-id lookup depends only on the ids. Edits that keep every id keep the selected department. |
| `HospitalDocument.DistinctIdsSelectTheOnlyMatch` | backend/Controllers/Hospital.js:224 | With distinct sub-ids, looking up a department's id selects exactly that department. |
| `HospitalDocument.AddDepartment` | backend/Controllers/Hospital.js:95-104 | The list grows by one and the new department is last. Earlier departments and the hospital's own fields are unchanged. |
| `HospitalDocument.AddDepartmentSelection` | backend/Controllers/Hospital.js:95-104 | A duplicate name is accepted but shadowed: name lookups still select the earlier namesake. Only a fresh name selects the new department, at the end. |
| `HospitalDocument.AddDoctor` | backend/Controllers/Hospital.js:122-131 | Not found (document unchanged) exactly when no department has the sub-id. Otherwise only that department changes: it gets exactly one more doctor, at the end, and its other fields stay. |
| `HospitalDocument.UpdateEquipment` | backend/Controllers/Hospital.js:151-159 | Not found exactly when no department has the name. Otherwise only the first namesake changes: one name is appended to its equipment. The returned list is its whole new equipment list. |
| `HospitalDocument.EquipmentAccumulates` | backend/Controllers/Hospital.js:156 | Two successive additions leave the old list followed by both names in call order. A repeated name appears twice. |
| `HospitalDocument.UpdateFacilities` | backend/Controllers/Hospital.js:172-185 | Not found when the sub-id is absent. Otherwise 400 when `facilities` is absent or falsy. Otherwise only that department changes: its facilities become exactly the given list, even an empty one. The updated department is returned. |
| `HospitalDocument.FacilitiesReplace` | backend/Controllers/Hospital.js:182 | Replace, not append: two successive updates leave exactly the second list, with the same result as the second update alone. |
| `HospitalDocument.DeleteDepartment` | backend/Controllers/Hospital.js:200-208 | Not found exactly when no department has the name. Otherwise the list is one shorter: the departments before the first namesake are unchanged and the rest move down by one, in order. |
| `HospitalDocument.DeleteDepartmentRemovesId` | backend/Controllers/Hospital.js:200-208 | With distinct sub-ids, the deleted department's id no longer occurs in the list. |
| `HospitalDocument.DeleteDoctor` | backend/Controllers/Hospital.js:224-237 | Department Not found when the sub-id is absent. Otherwise Doctor Not found when no doctor has the id. Otherwise only that department changes: its first doctor with the id is removed and the others keep their order. |
| `HospitalDocument.DeleteDoctorRemovesIt` | backend/Controllers/Hospital.js:229-237 | With distinct doctor ids, deleting the same doctor again answers Doctor Not found. |
| `HospitalDocument.UpdateBedCount` | backend/Controllers/Hospital.js:301-306 | Not found exactly when no department has the name. Otherwise only the first namesake changes, and only its bed counts. Each count supplied in the request is assigned and an absent one keeps its value. No relation between the two counts is checked. The updated department is returned. |
| `DoctorRoster.Annotate` | backend/Controllers/Hospital.js:257-267 | The inner loop's output has one entry per doctor, in doctor order. Each entry copies the doctor's id, name, specialization and availability and carries its department's id and name. |
| `DoctorRoster.DoctorEntriesLength` | backend/Controllers/Hospital.js:255-269 | The flat list's length is the sum of the departments' doctor counts. |
| `DoctorRoster.DoctorEntriesAppend` | backend/Controllers/Hospital.js:256-269 | Flattening distributes over concatenating department lists. |
| `DoctorRoster.DoctorEntriesAt` | backend/Controllers/Hospital.js:256-269 | Fixed order: doctor j of department i comes right after all doctors of earlier departments and the first j doctors of department i. |
| `DoctorRoster.DoctorEntriesSound` | backend/Controllers/Hospital.js:256-269 | Every entry annotates some stored doctor with the department that holds it. |
| `DoctorRoster.DeleteDepartmentDropsItsDoctors` | backend/Controllers/Hospital.js:208 | Deleting a department removes exactly its block of entries from the flat list. The entries before and after it stay, in order. |
| `DoctorRoster.DeletedDepartmentLeavesNoEntries` | backend/Controllers/Hospital.js:200-208 | With distinct sub-ids, no entry listed after the deletion names the deleted department. |
| `HospitalController.RegisterKeepsInvariant` | backend/Controllers/Hospital.js:10-29 | Storing a hospital with an unused contact number under the next id keeps contact numbers unique and ids well formed. |
| `HospitalController.AddDoctorKeepsInvariant` | backend/Controllers/Hospital.js:131-132 | Writing back the hospital with a new doctor carrying the next id keeps the collection invariant. |
| `HospitalController.CollectDoctors` | backend/Controllers/Hospital.js:255-269 | The nested loop yields exactly the flat doctor list of the departments. |
| `HospitalController.HospitalStore.Register` | backend/Controllers/Hospital.js:5-36 | If a stored hospital has the contact number: the 400 conflict, store unchanged. Otherwise exactly one new hospital under a fresh id, with the given fields and no departments. |
| `HospitalController.HospitalStore.GetHospitalById` | backend/Controllers/Hospital.js:72-82 | Returns the stored document exactly when the id is present, and Not found (404) otherwise. |
| `HospitalController.HospitalStore.AddDepartment` | backend/Controllers/Hospital.js:86-111 | Not found (404), store unchanged, for an unknown hospital. Otherwise that hospital gets the new department with a fresh sub-id, and that department is returned. |
| `HospitalController.HospitalStore.AddDoctor` | backend/Controllers/Hospital.js:115-138 | Checks in order: hospital Not found, then department Not found, then an availability outside the enum fails validation. Each error leaves the store unchanged and answers 404, except the validation failure, which answers 500. Otherwise the doctor is added with a fresh id and the updated hospital is returned. |
| `HospitalController.HospitalStore.UpdateEquipment` | backend/Controllers/Hospital.js:141-163 | Not found (404) for an unknown hospital. Otherwise the document edit's outcome, whose only error is 404; only that hospital is written, only on success. |
| `HospitalController.HospitalStore.UpdateFacilities` | backend/Controllers/Hospital.js:165-189 | Not found (404) for an unknown hospital. Otherwise the document edit's outcome; an error answers 400 exactly when it is the missing-facilities refusal, and 404 otherwise. Only that hospital is written, only on success. |
| `HospitalController.HospitalStore.DeleteDepartment` | backend/Controllers/Hospital.js:193-215 | Not found (404) for an unknown hospital. Otherwise the document edit's outcome, whose errors are all 404; only that hospital is written, only on success. |
| `HospitalController.HospitalStore.DeleteDoctor` | backend/Controllers/Hospital.js:217-244 | Not found (404) for an unknown hospital. Otherwise the document edit's outcome, whose errors are all 404; only that hospital is written, only on success. |
| `HospitalController.HospitalStore.GetDoctorsByHospitalId` | backend/Controllers/Hospital.js:246-275 | Not found (404) exactly for an unknown hospital. Otherwise the flat doctor list, whose length is the total number of doctors. |
| `HospitalController.HospitalStore.GetDepartmentsByHospitalId` | backend/Controllers/Hospital.js:278-290 | The stored department list as is, or Not found (404). |
| `HospitalController.HospitalStore.UpdateBedCount` | backend/Controllers/Hospital.js:292-314 | Not found (404) for an unknown hospital. Otherwise the document edit's outcome, whose errors are all 404; only that hospital is written, only on success. |

## Left out

- HospitalLogin (backend/Controllers/Hospital.js:39-61) is not modelled. It looks hospitals up by an `email` field that the schema does not declare, so what it matches depends on the persistence library's query semantics.
- getAllHospitals (backend/Controllers/Hospital.js:63-70) is not modelled. It returns the whole collection in the database's order, which is not specified.
- Cookie and token issuance (sendCookie) is not modelled: backend/utils/features.js is not part of this model. Register returns the new hospital's id instead.
- The blanket 500 answer for store exceptions is left out, except for one case: the availability enum validator rejecting the save.
- Request bodies are modelled as present, well-typed values. The model does not capture three things. A required string left empty fails validation at save (500). A bed count of `null` or a non-number is cast or rejected at save. A `facilities` value that is a string rather than a list is cast to a one-element list.
- Bed counts are integers. A fractional JavaScript `Number` for `totalBeds` or `availableBeds` (the schema's type at backend/models/Hospital.js:12-13) is not modelled, and neither is floating-point behaviour.
- updateBedCount and updateFacilities keep their optional fields as `Option` values. `None` means absent (`undefined`), and for `facilities` also any falsy value.
- HospitalController.HospitalStore.AddDepartment returns the stored department, with its sub-id. The handler echoes the request literal, which does not carry the generated `_id`.
- Persistence (`findById`, `save`) is an in-memory map. Each request is one atomic method call, so last-write-wins races between concurrent requests are not modelled.
- ObjectIds are a counter, and comparing `doc._id.toString()` with the path parameter is modelled as equality of ids.
- Passwords are stored as given, as in the code; there is no hashing to model.
- The React components and backend/models/empStatus.js have no behaviour of the store and are not modelled.
