/** The hospital controller: an in-memory collection of hospital documents
    keyed by id, and one method per request handler. Each method loads one
    document, applies the edit of module HospitalDocument and, on success
    only, writes the document back; every error path leaves the store as it
    was. */
module HospitalController {
  import opened Lookup
  import opened HospitalSchema
  import opened HospitalDocument
  import opened DoctorRoster

  /** `findOne({ contactNumber })` finds a document. */
  predicate ContactTaken(hs: map<Id, Hospital>, contactNumber: string)
  {
    exists id :: id in hs && hs[id].contactNumber == contactNumber
  }

  /** Under the unique index, a contact number on file belongs to exactly
      one stored hospital: the document `findOne` returns. */
  lemma TakenContactHasOneOwner(hs: map<Id, Hospital>, contactNumber: string)
    requires ContactsUnique(hs)
    requires ContactTaken(hs, contactNumber)
    ensures exists id :: && id in hs && hs[id].contactNumber == contactNumber
                         && forall other :: other in hs && hs[other].contactNumber == contactNumber ==> other == id
  {
    var id :| id in hs && hs[id].contactNumber == contactNumber;
    assert forall other :: other in hs && hs[other].contactNumber == contactNumber ==> other == id;
  }

  /** The consistency the collection keeps: contact numbers are unique,
      every id handed out is below the counter, sub-ids are distinct. */
  ghost predicate StoreInvariant(hs: map<Id, Hospital>, nextId: Id)
  {
    && ContactsUnique(hs)
    && forall id :: id in hs ==> id < nextId && HospitalWellFormed(hs[id], nextId)
  }

  /** Registration with an unused contact number keeps contact numbers
      unique; the new hospital takes the next unused id. */
  lemma RegisterKeepsInvariant(hs: map<Id, Hospital>, nextId: Id, h: Hospital)
    requires StoreInvariant(hs, nextId)
    requires !ContactTaken(hs, h.contactNumber)
    requires h.departments == []
    ensures nextId !in hs
    ensures StoreInvariant(hs[nextId := h], nextId + 1)
  {
    var hs' := hs[nextId := h];
    assert forall id :: id in hs ==> hs[id].contactNumber != h.contactNumber;
    forall id | id in hs
      ensures HospitalWellFormed(hs[id], nextId + 1)
    {
      WellFormedMonotone(hs[id], nextId, nextId + 1);
    }
  }

  /** Handing out one more id keeps the invariant. */
  lemma AdvanceKeepsInvariant(hs: map<Id, Hospital>, nextId: Id)
    requires StoreInvariant(hs, nextId)
    ensures StoreInvariant(hs, nextId + 1)
  {
    forall id | id in hs
      ensures HospitalWellFormed(hs[id], nextId + 1)
    {
      WellFormedMonotone(hs[id], nextId, nextId + 1);
    }
  }

  /** Writing back an edited document with the same contact number and
      well-formed ids keeps the invariant. */
  lemma ReplaceKeepsInvariant(hs: map<Id, Hospital>, nextId: Id, id: Id, h: Hospital)
    requires StoreInvariant(hs, nextId)
    requires id in hs && h.contactNumber == hs[id].contactNumber
    requires HospitalWellFormed(h, nextId)
    ensures StoreInvariant(hs[id := h], nextId)
  {
    var hs' := hs[id := h];
    forall a, b | a in hs' && b in hs' && hs'[a].contactNumber == hs'[b].contactNumber
      ensures a == b
    {
      assert hs[a].contactNumber == hs'[a].contactNumber;
      assert hs[b].contactNumber == hs'[b].contactNumber;
    }
  }

  /** Writing back a hospital with one more doctor, carrying the next
      unused id, keeps the invariant. */
  lemma AddDoctorKeepsInvariant(hs: map<Id, Hospital>, nextId: Id, id: Id, departmentId: Id, doc: Doctor)
    requires StoreInvariant(hs, nextId)
    requires id in hs && doc.id == nextId
    requires AddDoctor(hs[id], departmentId, doc).Ok?
    ensures StoreInvariant(hs[id := AddDoctor(hs[id], departmentId, doc).value], nextId + 1)
  {
    var h, h' := hs[id], AddDoctor(hs[id], departmentId, doc).value;
    AddDoctorWellFormed(h, nextId, departmentId, doc);
    assert h'.contactNumber == h.contactNumber;
    AdvanceReplaceKeepsInvariant(hs, nextId, id, h');
  }

  /** Writing back an edited document that carries the next unused id keeps
      the invariant once the counter moves past that id. */
  lemma AdvanceReplaceKeepsInvariant(hs: map<Id, Hospital>, nextId: Id, id: Id, h: Hospital)
    requires StoreInvariant(hs, nextId)
    requires id in hs && h.contactNumber == hs[id].contactNumber
    requires HospitalWellFormed(h, nextId + 1)
    ensures StoreInvariant(hs[id := h], nextId + 1)
  {
    AdvanceKeepsInvariant(hs, nextId);
    ReplaceKeepsInvariant(hs, nextId + 1, id, h);
  }

  /** The nested `forEach` of getDoctorsByHospitalId: for each department
      in order, push one annotated entry per doctor in order. */
  method CollectDoctors(ds: seq<Department>) returns (doctors: seq<DoctorEntry>)
    ensures doctors == DoctorEntries(ds)
  {
    doctors := [];
    var i := 0;
    while i < |ds|
      invariant 0 <= i <= |ds|
      invariant doctors == DoctorEntries(ds[..i])
    {
      var dept := ds[i];
      var j := 0;
      while j < |dept.doctors|
        invariant 0 <= j <= |dept.doctors|
        invariant doctors == DoctorEntries(ds[..i]) + Annotate(dept, dept.doctors[..j])
      {
        var doc := dept.doctors[j];
        doctors := doctors + [EntryOf(dept, doc)];
        assert dept.doctors[..j + 1][..j] == dept.doctors[..j];
        j := j + 1;
      }
      assert dept.doctors[..j] == dept.doctors;
      assert ds[..i + 1][..i] == ds[..i] && ds[..i + 1][i] == dept;
      i := i + 1;
    }
    assert ds[..i] == ds;
  }

  class HospitalStore {
    /** The collection: hospital documents by id. */
    var hospitals: map<Id, Hospital>
    /** The source of fresh ids for hospitals, departments and doctors. */
    var nextId: Id

    ghost predicate Valid()
      reads this
    {
      StoreInvariant(hospitals, nextId)
    }

    constructor ()
      ensures Valid()
      ensures hospitals == map[] && nextId == 0
    {
      hospitals := map[];
      nextId := 0;
    }

    /** Hospitalregister: refuse a contact number already on file; otherwise
        store a new hospital with the given fields and no departments. */
    method Register(hospitalName: string, state: string, city: string, pincode: string, contactNumber: string, password: string)
      returns (r: Result<Id>)
      requires Valid()
      modifies this
      ensures Valid()
      ensures r.Err? ==> r.error.Status() == 400
      ensures ContactTaken(old(hospitals), contactNumber) ==>
        r == Err(AlreadyRegistered) && hospitals == old(hospitals) && nextId == old(nextId)
      ensures !ContactTaken(old(hospitals), contactNumber) ==>
        && r == Ok(old(nextId))
        && old(nextId) !in old(hospitals)
        && hospitals == old(hospitals)[old(nextId) := Hospital(hospitalName, state, city, pincode, contactNumber, password, [])]
        && nextId == old(nextId) + 1
    {
      if ContactTaken(hospitals, contactNumber) {
        return Err(AlreadyRegistered);
      }
      var h := Hospital(hospitalName, state, city, pincode, contactNumber, password, []);
      RegisterKeepsInvariant(hospitals, nextId, h);
      hospitals := hospitals[nextId := h];
      r := Ok(nextId);
      nextId := nextId + 1;
    }

    /** getHospitalById. */
    method GetHospitalById(id: Id) returns (r: Result<Hospital>)
      ensures id in hospitals <==> r.Ok?
      ensures r.Ok? ==> r.value == hospitals[id]
      ensures r.Err? ==> r.error == HospitalNotFound && r.error.Status() == 404
    {
      if id !in hospitals {
        return Err(HospitalNotFound);
      }
      return Ok(hospitals[id]);
    }

    /** addDepartment: append a department with a fresh sub-id; the response
        is the new department. */
    method AddDepartment(id: Id, name: string, totalBeds: int, availableBeds: int) returns (r: Result<Department>)
      requires Valid()
      modifies this
      ensures Valid()
      ensures r.Err? ==> r.error.Status() == 404
      ensures id !in old(hospitals) ==>
        r == Err(HospitalNotFound) && hospitals == old(hospitals) && nextId == old(nextId)
      ensures id in old(hospitals) ==>
        && r == Ok(NewDepartment(old(nextId), name, totalBeds, availableBeds))
        && hospitals == old(hospitals)[id := HospitalDocument.AddDepartment(old(hospitals)[id], r.value)]
        && nextId == old(nextId) + 1
    {
      if id !in hospitals {
        return Err(HospitalNotFound);
      }
      var dept := NewDepartment(nextId, name, totalBeds, availableBeds);
      var h := HospitalDocument.AddDepartment(hospitals[id], dept);
      AddDepartmentWellFormed(hospitals[id], nextId, name, totalBeds, availableBeds);
      AdvanceReplaceKeepsInvariant(hospitals, nextId, id, h);
      hospitals := hospitals[id := h];
      nextId := nextId + 1;
      r := Ok(dept);
    }

    /** addDoctor: append a doctor with a fresh sub-id to the department
        selected by sub-id; the response is the whole updated hospital. An
        availability outside the schema's enum fails validation at save. */
    method AddDoctor(id: Id, departmentId: Id, name: string, specialization: string, availability: string)
      returns (r: Result<Hospital>)
      requires Valid()
      modifies this
      ensures Valid()
      ensures r.Err? ==> hospitals == old(hospitals) && nextId == old(nextId)
      ensures r.Err? ==> r.error.Status() == (if r.error == InvalidAvailability then 500 else 404)
      ensures id !in old(hospitals) ==> r == Err(HospitalNotFound)
      ensures id in old(hospitals) && DepartmentById(old(hospitals)[id].departments, departmentId).None? ==>
        r == Err(DepartmentNotFound)
      ensures id in old(hospitals) && DepartmentById(old(hospitals)[id].departments, departmentId).Some? ==>
        match ParseAvailability(availability)
        case None => r == Err(InvalidAvailability)
        case Some(a) =>
          && r == HospitalDocument.AddDoctor(old(hospitals)[id], departmentId, Doctor(old(nextId), name, specialization, a))
          && r.Ok?
          && hospitals == old(hospitals)[id := r.value]
          && nextId == old(nextId) + 1
    {
      if id !in hospitals {
        return Err(HospitalNotFound);
      }
      var h := hospitals[id];
      if DepartmentById(h.departments, departmentId).None? {
        return Err(DepartmentNotFound);
      }
      var a := ParseAvailability(availability);
      if a.None? {
        return Err(InvalidAvailability);
      }
      var doc := Doctor(nextId, name, specialization, a.value);
      r := HospitalDocument.AddDoctor(h, departmentId, doc);
      AddDoctorKeepsInvariant(hospitals, nextId, id, departmentId, doc);
      hospitals := hospitals[id := r.value];
      nextId := nextId + 1;
    }

    /** updateEquipment: the response is the department's equipment list. */
    method UpdateEquipment(id: Id, departmentName: string, item: string) returns (r: Result<seq<string>>)
      requires Valid()
      modifies this
      ensures Valid()
      ensures r.Err? ==> r.error.Status() == 404
      ensures nextId == old(nextId)
      ensures id !in old(hospitals) ==> r == Err(HospitalNotFound) && hospitals == old(hospitals)
      ensures id in old(hospitals) ==>
        match HospitalDocument.UpdateEquipment(old(hospitals)[id], departmentName, item)
        case Err(e) => r == Err(e) && hospitals == old(hospitals)
        case Ok((h, equipment)) => r == Ok(equipment) && hospitals == old(hospitals)[id := h]
    {
      if id !in hospitals {
        return Err(HospitalNotFound);
      }
      var old_h := hospitals[id];
      var res := HospitalDocument.UpdateEquipment(old_h, departmentName, item);
      match res
      case Err(e) =>
        r := Err(e);
      case Ok((h, equipment)) =>
        RetouchWellFormed(old_h, h, DepartmentByName(old_h.departments, departmentName).value, nextId);
        ReplaceKeepsInvariant(hospitals, nextId, id, h);
        hospitals := hospitals[id := h];
        r := Ok(equipment);
    }

    /** updateFacilities: the response is the updated department. */
    method UpdateFacilities(id: Id, departmentId: Id, facilities: Option<seq<string>>) returns (r: Result<Department>)
      requires Valid()
      modifies this
      ensures Valid()
      ensures r.Err? ==> r.error.Status() == (if r.error == FacilitiesMissing then 400 else 404)
      ensures nextId == old(nextId)
      ensures id !in old(hospitals) ==> r == Err(HospitalNotFound) && hospitals == old(hospitals)
      ensures id in old(hospitals) ==>
        match HospitalDocument.UpdateFacilities(old(hospitals)[id], departmentId, facilities)
        case Err(e) => r == Err(e) && hospitals == old(hospitals)
        case Ok((h, dept)) => r == Ok(dept) && hospitals == old(hospitals)[id := h]
    {
      if id !in hospitals {
        return Err(HospitalNotFound);
      }
      var old_h := hospitals[id];
      var res := HospitalDocument.UpdateFacilities(old_h, departmentId, facilities);
      match res
      case Err(e) =>
        r := Err(e);
      case Ok((h, dept)) =>
        RetouchWellFormed(old_h, h, DepartmentById(old_h.departments, departmentId).value, nextId);
        ReplaceKeepsInvariant(hospitals, nextId, id, h);
        hospitals := hospitals[id := h];
        r := Ok(dept);
    }

    /** deleteDepartment. */
    method DeleteDepartment(id: Id, departmentName: string) returns (r: Result<()>)
      requires Valid()
      modifies this
      ensures Valid()
      ensures r.Err? ==> r.error.Status() == 404
      ensures nextId == old(nextId)
      ensures id !in old(hospitals) ==> r == Err(HospitalNotFound) && hospitals == old(hospitals)
      ensures id in old(hospitals) ==>
        match HospitalDocument.DeleteDepartment(old(hospitals)[id], departmentName)
        case Err(e) => r == Err(e) && hospitals == old(hospitals)
        case Ok(h) => r == Ok(()) && hospitals == old(hospitals)[id := h]
    {
      if id !in hospitals {
        return Err(HospitalNotFound);
      }
      var old_h := hospitals[id];
      var res := HospitalDocument.DeleteDepartment(old_h, departmentName);
      match res
      case Err(e) =>
        r := Err(e);
      case Ok(h) =>
        DeleteDepartmentWellFormed(old_h, nextId, departmentName);
        ReplaceKeepsInvariant(hospitals, nextId, id, h);
        hospitals := hospitals[id := h];
        r := Ok(());
    }

    /** deleteDoctor. */
    method DeleteDoctor(hospitalId: Id, departmentId: Id, doctorId: Id) returns (r: Result<()>)
      requires Valid()
      modifies this
      ensures Valid()
      ensures r.Err? ==> r.error.Status() == 404
      ensures nextId == old(nextId)
      ensures hospitalId !in old(hospitals) ==> r == Err(HospitalNotFound) && hospitals == old(hospitals)
      ensures hospitalId in old(hospitals) ==>
        match HospitalDocument.DeleteDoctor(old(hospitals)[hospitalId], departmentId, doctorId)
        case Err(e) => r == Err(e) && hospitals == old(hospitals)
        case Ok(h) => r == Ok(()) && hospitals == old(hospitals)[hospitalId := h]
    {
      if hospitalId !in hospitals {
        return Err(HospitalNotFound);
      }
      var old_h := hospitals[hospitalId];
      var res := HospitalDocument.DeleteDoctor(old_h, departmentId, doctorId);
      match res
      case Err(e) =>
        r := Err(e);
      case Ok(h) =>
        DeleteDoctorWellFormed(old_h, nextId, departmentId, doctorId);
        ReplaceKeepsInvariant(hospitals, nextId, hospitalId, h);
        hospitals := hospitals[hospitalId := h];
        r := Ok(());
    }

    /** getDoctorsByHospitalId: the nested loop over departments and their
        doctors, pushing one annotated entry per doctor. */
    method GetDoctorsByHospitalId(id: Id) returns (r: Result<seq<DoctorEntry>>)
      ensures id in hospitals <==> r.Ok?
      ensures r.Err? ==> r.error == HospitalNotFound && r.error.Status() == 404
      ensures r.Ok? ==> r.value == DoctorEntries(hospitals[id].departments)
      ensures r.Ok? ==> |r.value| == DoctorCount(hospitals[id].departments)
    {
      if id !in hospitals {
        return Err(HospitalNotFound);
      }
      var ds := hospitals[id].departments;
      var doctors := CollectDoctors(ds);
      DoctorEntriesLength(ds);
      return Ok(doctors);
    }

    /** getDepartmentsByHospitalId: the stored department list as is. */
    method GetDepartmentsByHospitalId(id: Id) returns (r: Result<seq<Department>>)
      ensures id in hospitals <==> r.Ok?
      ensures r.Ok? ==> r.value == hospitals[id].departments
      ensures r.Err? ==> r.error == HospitalNotFound && r.error.Status() == 404
    {
      if id !in hospitals {
        return Err(HospitalNotFound);
      }
      return Ok(hospitals[id].departments);
    }

    /** updateBedCount: the response is the updated department. */
    method UpdateBedCount(id: Id, departmentName: string, totalBeds: Option<int>, availableBeds: Option<int>)
      returns (r: Result<Department>)
      requires Valid()
      modifies this
      ensures Valid()
      ensures r.Err? ==> r.error.Status() == 404
      ensures nextId == old(nextId)
      ensures id !in old(hospitals) ==> r == Err(HospitalNotFound) && hospitals == old(hospitals)
      ensures id in old(hospitals) ==>
        match HospitalDocument.UpdateBedCount(old(hospitals)[id], departmentName, totalBeds, availableBeds)
        case Err(e) => r == Err(e) && hospitals == old(hospitals)
        case Ok((h, dept)) => r == Ok(dept) && hospitals == old(hospitals)[id := h]
    {
      if id !in hospitals {
        return Err(HospitalNotFound);
      }
      var old_h := hospitals[id];
      var res := HospitalDocument.UpdateBedCount(old_h, departmentName, totalBeds, availableBeds);
      match res
      case Err(e) =>
        r := Err(e);
      case Ok((h, dept)) =>
        RetouchWellFormed(old_h, h, DepartmentByName(old_h.departments, departmentName).value, nextId);
        ReplaceKeepsInvariant(hospitals, nextId, id, h);
        hospitals := hospitals[id := h];
        r := Ok(dept);
    }
  }

  /** A client of the store: registering City General, a Cardiology
      department and one doctor, then deleting the department; what each
      call answers follows from the contracts above alone. */
  method CityGeneralScenario()
  {
    var store := new HospitalStore();
    var reg := store.Register("City General", "State", "City", "000000", "555-0100", "x");
    assert reg == Ok(0);
    assert store.hospitals[0].contactNumber == "555-0100";
    var again := store.Register("Other", "State", "City", "000000", "555-0100", "y");
    assert again == Err(AlreadyRegistered);
    assert store.hospitals[0].departments == [];

    var dep := store.AddDepartment(0, "Cardiology", 20, 12);
    assert dep == Ok(NewDepartment(1, "Cardiology", 20, 12));
    assert store.hospitals[0].departments == [NewDepartment(1, "Cardiology", 20, 12)];
    var listed := store.GetDepartmentsByHospitalId(0);
    assert listed == Ok([NewDepartment(1, "Cardiology", 20, 12)]);

    assert DepartmentById(store.hospitals[0].departments, 1) == Some(0);
    var added := store.AddDoctor(0, 1, "Dr. Smith", "Cardiology", "Available");
    assert added.Ok?;
    var doctors := store.GetDoctorsByHospitalId(0);
    assert DoctorEntries(store.hospitals[0].departments) == [DoctorEntry(2, "Dr. Smith", "Cardiology", Available, DepartmentRef(1, "Cardiology"))];
    assert doctors == Ok([DoctorEntry(2, "Dr. Smith", "Cardiology", Available, DepartmentRef(1, "Cardiology"))]);

    assert DepartmentByName(store.hospitals[0].departments, "Cardiology") == Some(0);
    var deleted := store.DeleteDepartment(0, "Cardiology");
    assert deleted == Ok(());
    doctors := store.GetDoctorsByHospitalId(0);
    assert doctors == Ok([]);
  }
}
