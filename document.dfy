/** What each handler of the hospital controller does to the ONE hospital
    document it has loaded: which department it selects (by first name
    match or by sub-id), what it changes in place, and which outcome it
    reports. Loading the document by id and writing it back is the store's
    part (module HospitalController). */
module HospitalDocument {
  import opened Lookup
  import opened HospitalSchema

  /** The outcomes other than success, one per response message. */
  datatype Error =
    | HospitalNotFound     // 404 "Hospital not found"
    | DepartmentNotFound   // 404 "Department not found"
    | DoctorNotFound       // 404 "Doctor not found"
    | AlreadyRegistered    // 400 "Hospital already registered!"
    | FacilitiesMissing    // 400 "Enter Facilities"
    | InvalidAvailability  // the schema's enum validator rejects the save: 500
  {
    /** The HTTP status the handler answers with. */
    function Status(): int
    {
      match this
      case HospitalNotFound | DepartmentNotFound | DoctorNotFound => 404
      case AlreadyRegistered | FacilitiesMissing => 400
      case InvalidAvailability => 500
    }
  }

  datatype Result<T> = Ok(value: T) | Err(error: Error)

  // ---------------------------------------------------------------------
  // Selecting a department or a doctor
  // ---------------------------------------------------------------------

  /** `departments.find(dept => dept.name === name)` / `findIndex`: the first
      department carrying the name; later namesakes are never selected. */
  function DepartmentByName(ds: seq<Department>, name: string): (r: Option<nat>)
    ensures r.Some? ==> r.value < |ds| && ds[r.value].name == name
    ensures r.Some? ==> forall j :: 0 <= j < r.value ==> ds[j].name != name
    ensures r.None? <==> forall j :: 0 <= j < |ds| ==> ds[j].name != name
  {
    FirstIndex(ds, (d: Department) => d.name == name)
  }

  /** `departments.id(id)`: the first department with that sub-id. */
  function DepartmentById(ds: seq<Department>, id: Id): (r: Option<nat>)
    ensures r.Some? ==> r.value < |ds| && ds[r.value].id == id
    ensures r.Some? ==> forall j :: 0 <= j < r.value ==> ds[j].id != id
    ensures r.None? <==> forall j :: 0 <= j < |ds| ==> ds[j].id != id
  {
    FirstIndex(ds, (d: Department) => d.id == id)
  }

  /** deleteDoctor's `findIndex`: the first doctor whose id equals `doctorId`. */
  function DoctorById(docs: seq<Doctor>, id: Id): (r: Option<nat>)
    ensures r.Some? ==> r.value < |docs| && docs[r.value].id == id
    ensures r.Some? ==> forall j :: 0 <= j < r.value ==> docs[j].id != id
    ensures r.None? <==> forall j :: 0 <= j < |docs| ==> docs[j].id != id
  {
    FirstIndex(docs, (d: Doctor) => d.id == id)
  }

  /** Name lookups only look at names: a list whose names are pointwise the
      same selects the same department. */
  lemma SameNamesSameSelection(ds: seq<Department>, ds': seq<Department>, name: string)
    requires |ds| == |ds'|
    requires forall j :: 0 <= j < |ds| ==> ds[j].name == ds'[j].name
    ensures DepartmentByName(ds, name) == DepartmentByName(ds', name)
  {
    var r, r' := DepartmentByName(ds, name), DepartmentByName(ds', name);
    if r.Some? {
      assert ds'[r.value].name == name;
      assert ds[r'.value].name == name;
    }
  }

  /** Id lookups only look at ids. */
  lemma SameIdsSameSelection(ds: seq<Department>, ds': seq<Department>, id: Id)
    requires |ds| == |ds'|
    requires forall j :: 0 <= j < |ds| ==> ds[j].id == ds'[j].id
    ensures DepartmentById(ds, id) == DepartmentById(ds', id)
  {
    var r, r' := DepartmentById(ds, id), DepartmentById(ds', id);
    if r.Some? {
      assert ds'[r.value].id == id;
      assert ds[r'.value].id == id;
    }
  }

  /** With distinct sub-ids the first match is the only match. */
  lemma DistinctIdsSelectTheOnlyMatch(ds: seq<Department>, bound: Id, i: nat)
    requires DepartmentsWellFormed(ds, bound)
    requires i < |ds|
    ensures DepartmentById(ds, ds[i].id) == Some(i)
  {
    var r := DepartmentById(ds, ds[i].id);
    assert r.Some?;
  }

  // ---------------------------------------------------------------------
  // Frames
  // ---------------------------------------------------------------------

  /** The hospital's own fields are untouched; only its departments may differ. */
  ghost predicate SameProfile(h: Hospital, h': Hospital)
  {
    h' == h.(departments := h'.departments)
  }

  /** Exactly department `i` may have changed: same profile, same number of
      departments, every other department identical. */
  ghost predicate OnlyDepartmentChanged(h: Hospital, h': Hospital, i: nat)
  {
    && SameProfile(h, h')
    && i < |h.departments| == |h'.departments|
    && forall j :: 0 <= j < |h.departments| && j != i ==> h'.departments[j] == h.departments[j]
  }

  // ---------------------------------------------------------------------
  // The handlers' edits
  // ---------------------------------------------------------------------

  /** The record addDepartment builds: the given name and bed counts, the
      generated sub-id, and empty doctors, equipment and facilities. */
  function NewDepartment(id: Id, name: string, totalBeds: int, availableBeds: int): Department
  {
    Department(id, name, totalBeds, availableBeds, [], [], [])
  }

  /** addDepartment: `departments.push(newDepartment)`, with no check on the
      name (duplicates are accepted) and none on the bed counts. */
  function AddDepartment(h: Hospital, d: Department): (h': Hospital)
    ensures SameProfile(h, h')
    ensures |h'.departments| == |h.departments| + 1
    ensures forall j :: 0 <= j < |h.departments| ==> h'.departments[j] == h.departments[j]
    ensures h'.departments[|h.departments|] == d
  {
    h.(departments := h.departments + [d])
  }

  /** addDoctor: push the doctor onto the department selected by sub-id. */
  function AddDoctor(h: Hospital, departmentId: Id, doc: Doctor): (r: Result<Hospital>)
    ensures r.Err? <==> DepartmentById(h.departments, departmentId).None?
    ensures r.Err? ==> r.error == DepartmentNotFound
    ensures r.Ok? ==> |r.value.departments| == |h.departments|
    ensures r.Ok? ==>
      var i := DepartmentById(h.departments, departmentId).value;
      var d, d' := h.departments[i], r.value.departments[i];
      && OnlyDepartmentChanged(h, r.value, i)
      && d' == d.(doctors := d'.doctors)
      && |d'.doctors| == |d.doctors| + 1
      && d'.doctors[..|d.doctors|] == d.doctors
      && d'.doctors[|d.doctors|] == doc
  {
    match DepartmentById(h.departments, departmentId)
    case None => Err(DepartmentNotFound)
    case Some(i) =>
      var d := h.departments[i];
      Ok(h.(departments := h.departments[i := d.(doctors := d.doctors + [doc])]))
  }

  /** updateEquipment: push the name onto the equipment of the first
      department with the given name (duplicates allowed); the response
      carries that department's whole equipment list. */
  function UpdateEquipment(h: Hospital, departmentName: string, item: string): (r: Result<(Hospital, seq<string>)>)
    ensures r.Err? <==> DepartmentByName(h.departments, departmentName).None?
    ensures r.Err? ==> r.error == DepartmentNotFound
    ensures r.Ok? ==> |r.value.0.departments| == |h.departments|
    ensures r.Ok? ==>
      var i := DepartmentByName(h.departments, departmentName).value;
      var d, d' := h.departments[i], r.value.0.departments[i];
      && OnlyDepartmentChanged(h, r.value.0, i)
      && d' == d.(equipment := d'.equipment)
      && |d'.equipment| == |d.equipment| + 1
      && d'.equipment[..|d.equipment|] == d.equipment
      && d'.equipment[|d.equipment|] == item
      && r.value.1 == d'.equipment
  {
    match DepartmentByName(h.departments, departmentName)
    case None => Err(DepartmentNotFound)
    case Some(i) =>
      var d := h.departments[i];
      var d' := d.(equipment := d.equipment + [item]);
      Ok((h.(departments := h.departments[i := d']), d'.equipment))
  }

  /** updateFacilities: with the department selected by sub-id, replace its
      facilities wholesale. `facilities` is None when the request field is
      absent or falsy; an empty list is truthy and accepted. The department
      is looked up before the field is checked. */
  function UpdateFacilities(h: Hospital, departmentId: Id, facilities: Option<seq<string>>): (r: Result<(Hospital, Department)>)
    ensures r.Err? <==> DepartmentById(h.departments, departmentId).None? || facilities.None?
    ensures DepartmentById(h.departments, departmentId).None? ==> r == Err(DepartmentNotFound)
    ensures DepartmentById(h.departments, departmentId).Some? && facilities.None? ==> r == Err(FacilitiesMissing)
    ensures r.Ok? ==> |r.value.0.departments| == |h.departments|
    ensures r.Ok? ==>
      var i := DepartmentById(h.departments, departmentId).value;
      var d, d' := h.departments[i], r.value.0.departments[i];
      && OnlyDepartmentChanged(h, r.value.0, i)
      && d' == d.(facilities := facilities.value)
      && r.value.1 == d'
  {
    match DepartmentById(h.departments, departmentId)
    case None => Err(DepartmentNotFound)
    case Some(i) =>
      match facilities
      case None => Err(FacilitiesMissing)
      case Some(fs) =>
        var d' := h.departments[i].(facilities := fs);
        Ok((h.(departments := h.departments[i := d']), d'))
  }

  /** deleteDepartment: `splice(findIndex(name), 1)`, taking the department's
      doctors, equipment and facilities with it. */
  function DeleteDepartment(h: Hospital, departmentName: string): (r: Result<Hospital>)
    ensures r.Err? <==> DepartmentByName(h.departments, departmentName).None?
    ensures r.Err? ==> r.error == DepartmentNotFound
    ensures r.Ok? ==>
      var i := DepartmentByName(h.departments, departmentName).value;
      && SameProfile(h, r.value)
      && |r.value.departments| == |h.departments| - 1
      && r.value.departments[..i] == h.departments[..i]
      && r.value.departments[i..] == h.departments[i + 1..]
  {
    match DepartmentByName(h.departments, departmentName)
    case None => Err(DepartmentNotFound)
    case Some(i) =>
      var ds' := RemoveAt(h.departments, i);
      assert ds'[..i] == h.departments[..i];
      assert ds'[i..] == h.departments[i + 1..];
      Ok(h.(departments := ds'))
  }

  /** deleteDoctor: in the department selected by sub-id, splice out the
      first doctor with the given id. */
  function DeleteDoctor(h: Hospital, departmentId: Id, doctorId: Id): (r: Result<Hospital>)
    ensures DepartmentById(h.departments, departmentId).None? ==> r == Err(DepartmentNotFound)
    ensures DepartmentById(h.departments, departmentId).Some? ==>
      var i := DepartmentById(h.departments, departmentId).value;
      var d := h.departments[i];
      match DoctorById(d.doctors, doctorId)
      case None => r == Err(DoctorNotFound)
      case Some(k) =>
        && r.Ok?
        && OnlyDepartmentChanged(h, r.value, i)
        && var d' := r.value.departments[i];
        && d' == d.(doctors := d'.doctors)
        && |d'.doctors| == |d.doctors| - 1
        && d'.doctors[..k] == d.doctors[..k]
        && d'.doctors[k..] == d.doctors[k + 1..]
  {
    match DepartmentById(h.departments, departmentId)
    case None => Err(DepartmentNotFound)
    case Some(i) =>
      var d := h.departments[i];
      match DoctorById(d.doctors, doctorId)
      case None => Err(DoctorNotFound)
      case Some(k) =>
        var docs' := RemoveAt(d.doctors, k);
        assert docs'[..k] == d.doctors[..k];
        assert docs'[k..] == d.doctors[k + 1..];
        Ok(h.(departments := h.departments[i := d.(doctors := docs')]))
  }

  /** updateBedCount: in the first department with the given name, assign
      each bed count that the request supplies (None = field absent) and
      keep the other. Nothing relates availableBeds to totalBeds. */
  function UpdateBedCount(h: Hospital, departmentName: string, totalBeds: Option<int>, availableBeds: Option<int>): (r: Result<(Hospital, Department)>)
    ensures r.Err? <==> DepartmentByName(h.departments, departmentName).None?
    ensures r.Err? ==> r.error == DepartmentNotFound
    ensures r.Ok? ==> |r.value.0.departments| == |h.departments|
    ensures r.Ok? ==>
      var i := DepartmentByName(h.departments, departmentName).value;
      var d, d' := h.departments[i], r.value.0.departments[i];
      && OnlyDepartmentChanged(h, r.value.0, i)
      && d' == d.(totalBeds := d'.totalBeds, availableBeds := d'.availableBeds)
      && d'.totalBeds == (if totalBeds.Some? then totalBeds.value else d.totalBeds)
      && d'.availableBeds == (if availableBeds.Some? then availableBeds.value else d.availableBeds)
      && r.value.1 == d'
  {
    match DepartmentByName(h.departments, departmentName)
    case None => Err(DepartmentNotFound)
    case Some(i) =>
      var d := h.departments[i];
      var d1 := if totalBeds.Some? then d.(totalBeds := totalBeds.value) else d;
      var d2 := if availableBeds.Some? then d1.(availableBeds := availableBeds.value) else d1;
      Ok((h.(departments := h.departments[i := d2]), d2))
  }

  // ---------------------------------------------------------------------
  // Properties relating several calls
  // ---------------------------------------------------------------------

  /** A duplicate department name is accepted, but first-match lookups keep
      selecting the earlier namesake; only a fresh name selects the new
      department, at the end of the list. */
  lemma AddDepartmentSelection(h: Hospital, d: Department, name: string)
    ensures DepartmentByName(AddDepartment(h, d).departments, name) ==
      match DepartmentByName(h.departments, name)
      case Some(i) => Some(i)
      case None => if d.name == name then Some(|h.departments|) else None
  {
    var ds, ds' := h.departments, AddDepartment(h, d).departments;
    var r, r' := DepartmentByName(ds, name), DepartmentByName(ds', name);
    if r.Some? {
      assert ds'[r.value].name == name;
      assert r'.value < |ds|;
    } else if d.name == name {
      assert ds'[|ds|].name == name;
      assert r'.value == |ds|;
    }
  }

  /** Facilities are replaced, not accumulated: after two successive updates
      of one department only the second list remains, exactly as if the
      first had never happened. */
  lemma FacilitiesReplace(h: Hospital, departmentId: Id, first: seq<string>, second: seq<string>)
    requires DepartmentById(h.departments, departmentId).Some?
    ensures UpdateFacilities(h, departmentId, Some(first)).Ok?
    ensures
      var h1 := UpdateFacilities(h, departmentId, Some(first)).value.0;
      && UpdateFacilities(h1, departmentId, Some(second)) == UpdateFacilities(h, departmentId, Some(second))
      && UpdateFacilities(h1, departmentId, Some(second)).value.1.facilities == second
  {
    var i := DepartmentById(h.departments, departmentId).value;
    var h1 := UpdateFacilities(h, departmentId, Some(first)).value.0;
    SameIdsSameSelection(h.departments, h1.departments, departmentId);
    var r2, r2' := UpdateFacilities(h1, departmentId, Some(second)), UpdateFacilities(h, departmentId, Some(second));
    assert r2.value.0.departments == r2'.value.0.departments;
  }

  /** Equipment accumulates: two successive additions to one department
      leave its old list followed by both names, in call order (a repeated
      name appears twice). */
  lemma EquipmentAccumulates(h: Hospital, departmentName: string, first: string, second: string)
    requires DepartmentByName(h.departments, departmentName).Some?
    ensures UpdateEquipment(h, departmentName, first).Ok?
    ensures
      var i := DepartmentByName(h.departments, departmentName).value;
      var h1 := UpdateEquipment(h, departmentName, first).value.0;
      && UpdateEquipment(h1, departmentName, second).Ok?
      && UpdateEquipment(h1, departmentName, second).value.1 == h.departments[i].equipment + [first, second]
  {
    var i := DepartmentByName(h.departments, departmentName).value;
    var h1 := UpdateEquipment(h, departmentName, first).value.0;
    SameNamesSameSelection(h.departments, h1.departments, departmentName);
    var e := h.departments[i].equipment;
    var e2 := UpdateEquipment(h1, departmentName, second).value.1;
    assert e2 == (e + [first]) + [second];
  }

  /** With distinct doctor ids, a deleted doctor is gone: deleting it again
      from the same department reports that the doctor is not found. */
  lemma DeleteDoctorRemovesIt(h: Hospital, bound: Id, departmentId: Id, doctorId: Id)
    requires HospitalWellFormed(h, bound)
    requires DeleteDoctor(h, departmentId, doctorId).Ok?
    ensures DeleteDoctor(DeleteDoctor(h, departmentId, doctorId).value, departmentId, doctorId) == Err(DoctorNotFound)
  {
    var h' := DeleteDoctor(h, departmentId, doctorId).value;
    var i := DepartmentById(h.departments, departmentId).value;
    var docs := h.departments[i].doctors;
    var k := DoctorById(docs, doctorId).value;
    assert h'.departments[i].doctors == RemoveAt(docs, k);
    SameIdsSameSelection(h.departments, h'.departments, departmentId);
    assert DepartmentWellFormed(h.departments[i], bound);
    RemoveAtDropsId(docs, k);
  }

  /** Removing one doctor from a list of distinct ids removes its id. */
  lemma RemoveAtDropsId(docs: seq<Doctor>, k: nat)
    requires k < |docs|
    requires forall a, b :: 0 <= a < b < |docs| ==> docs[a].id != docs[b].id
    ensures forall j :: 0 <= j < |RemoveAt(docs, k)| ==> RemoveAt(docs, k)[j].id != docs[k].id
  {
  }

  // ---------------------------------------------------------------------
  // Generated ids stay well formed under every edit
  // ---------------------------------------------------------------------

  lemma WellFormedMonotone(h: Hospital, bound: Id, bound': Id)
    requires HospitalWellFormed(h, bound) && bound <= bound'
    ensures HospitalWellFormed(h, bound')
  {
    forall i | 0 <= i < |h.departments|
      ensures DepartmentWellFormed(h.departments[i], bound')
    {
      assert DepartmentWellFormed(h.departments[i], bound);
    }
  }

  /** A department carrying the next unused id keeps the ids distinct. */
  lemma AddDepartmentWellFormed(h: Hospital, bound: Id, name: string, totalBeds: int, availableBeds: int)
    requires HospitalWellFormed(h, bound)
    ensures HospitalWellFormed(AddDepartment(h, NewDepartment(bound, name, totalBeds, availableBeds)), bound + 1)
  {
    WellFormedMonotone(h, bound, bound + 1);
  }

  /** An edit that keeps department i's id and doctors keeps ids well formed. */
  lemma RetouchWellFormed(h: Hospital, h': Hospital, i: nat, bound: Id)
    requires HospitalWellFormed(h, bound)
    requires OnlyDepartmentChanged(h, h', i)
    requires h'.departments[i].id == h.departments[i].id
    requires h'.departments[i].doctors == h.departments[i].doctors
    ensures HospitalWellFormed(h', bound)
  {
    assert DepartmentWellFormed(h.departments[i], bound);
  }

  /** A doctor carrying the next unused id keeps the ids distinct. */
  lemma AddDoctorWellFormed(h: Hospital, bound: Id, departmentId: Id, doc: Doctor)
    requires HospitalWellFormed(h, bound)
    requires doc.id == bound
    requires AddDoctor(h, departmentId, doc).Ok?
    ensures HospitalWellFormed(AddDoctor(h, departmentId, doc).value, bound + 1)
  {
    WellFormedMonotone(h, bound, bound + 1);
    var h' := AddDoctor(h, departmentId, doc).value;
    var i := DepartmentById(h.departments, departmentId).value;
    var docs, docs' := h.departments[i].doctors, h'.departments[i].doctors;
    assert DepartmentWellFormed(h.departments[i], bound);
    forall j | 0 <= j < |docs|
      ensures docs'[j] == docs[j]
    {
      assert docs'[j] == docs'[..|docs|][j];
    }
    assert DepartmentWellFormed(h'.departments[i], bound + 1);
  }

  /** Removing one doctor keeps the doctor ids well formed. */
  lemma DoctorsRemoveAtWellFormed(docs: seq<Doctor>, k: nat, bound: Id)
    requires k < |docs| && DoctorsWellFormed(docs, bound)
    ensures DoctorsWellFormed(RemoveAt(docs, k), bound)
  {
  }

  /** Removing one department keeps the department ids well formed. */
  lemma DepartmentsRemoveAtWellFormed(ds: seq<Department>, i: nat, bound: Id)
    requires i < |ds| && DepartmentsWellFormed(ds, bound)
    ensures DepartmentsWellFormed(RemoveAt(ds, i), bound)
  {
  }

  lemma DeleteDepartmentWellFormed(h: Hospital, bound: Id, departmentName: string)
    requires HospitalWellFormed(h, bound)
    requires DeleteDepartment(h, departmentName).Ok?
    ensures HospitalWellFormed(DeleteDepartment(h, departmentName).value, bound)
  {
    var i := DepartmentByName(h.departments, departmentName).value;
    assert DeleteDepartment(h, departmentName).value.departments == RemoveAt(h.departments, i);
    DepartmentsRemoveAtWellFormed(h.departments, i, bound);
  }

  /** With distinct department ids, the deleted department's id no longer
      occurs in the list. */
  lemma DeleteDepartmentRemovesId(h: Hospital, bound: Id, departmentName: string)
    requires HospitalWellFormed(h, bound)
    requires DeleteDepartment(h, departmentName).Ok?
    ensures
      var gone := h.departments[DepartmentByName(h.departments, departmentName).value];
      var ds' := DeleteDepartment(h, departmentName).value.departments;
      forall j :: 0 <= j < |ds'| ==> ds'[j].id != gone.id
  {
    var i := DepartmentByName(h.departments, departmentName).value;
    assert DeleteDepartment(h, departmentName).value.departments == RemoveAt(h.departments, i);
  }

  lemma DeleteDoctorWellFormed(h: Hospital, bound: Id, departmentId: Id, doctorId: Id)
    requires HospitalWellFormed(h, bound)
    requires DeleteDoctor(h, departmentId, doctorId).Ok?
    ensures HospitalWellFormed(DeleteDoctor(h, departmentId, doctorId).value, bound)
  {
    var h' := DeleteDoctor(h, departmentId, doctorId).value;
    var i := DepartmentById(h.departments, departmentId).value;
    var docs := h.departments[i].doctors;
    var k := DoctorById(docs, doctorId).value;
    assert h'.departments[i] == h.departments[i].(doctors := RemoveAt(docs, k));
    assert DepartmentWellFormed(h.departments[i], bound);
    DoctorsRemoveAtWellFormed(docs, k, bound);
    assert DepartmentWellFormed(h'.departments[i], bound);
  }
}
