/** getDoctorsByHospitalId's flat view of a hospital's doctors: one entry per
    doctor, departments in stored order and, within a department, doctors in
    stored order, each entry annotated with its department's id and name. */
module DoctorRoster {
  import opened Lookup
  import opened HospitalSchema
  import opened HospitalDocument

  /** The `department: { _id, name }` summary attached to each entry. */
  datatype DepartmentRef = DepartmentRef(id: Id, name: string)

  datatype DoctorEntry = DoctorEntry(
    id: Id,
    name: string,
    specialization: string,
    availability: Availability,
    department: DepartmentRef)

  /** The entry pushed for doctor `doc` of department `d`. */
  function EntryOf(d: Department, doc: Doctor): DoctorEntry
  {
    DoctorEntry(doc.id, doc.name, doc.specialization, doc.availability, DepartmentRef(d.id, d.name))
  }

  /** The entries for the doctors `docs`, all annotated with department `d`. */
  function Annotate(d: Department, docs: seq<Doctor>): (r: seq<DoctorEntry>)
    ensures |r| == |docs|
    ensures forall k :: 0 <= k < |docs| ==> r[k] == EntryOf(d, docs[k])
  {
    if docs == [] then []
    else Annotate(d, docs[..|docs| - 1]) + [EntryOf(d, docs[|docs| - 1])]
  }

  /** The flat list for departments `ds`: the whole result of the nested loop. */
  function DoctorEntries(ds: seq<Department>): seq<DoctorEntry>
  {
    if ds == [] then []
    else DoctorEntries(ds[..|ds| - 1]) + Annotate(ds[|ds| - 1], ds[|ds| - 1].doctors)
  }

  /** The number of doctors across departments `ds`. */
  function DoctorCount(ds: seq<Department>): nat
  {
    if ds == [] then 0
    else DoctorCount(ds[..|ds| - 1]) + |ds[|ds| - 1].doctors|
  }

  /** One entry per doctor: the flat list is as long as the doctor lists together. */
  lemma {:induction false} DoctorEntriesLength(ds: seq<Department>)
    ensures |DoctorEntries(ds)| == DoctorCount(ds)
  {
    if ds != [] {
      DoctorEntriesLength(ds[..|ds| - 1]);
    }
  }

  /** Flattening distributes over concatenation of department lists. */
  lemma {:induction false} DoctorEntriesAppend(a: seq<Department>, b: seq<Department>)
    ensures DoctorEntries(a + b) == DoctorEntries(a) + DoctorEntries(b)
  {
    if b == [] {
      assert a + b == a;
    } else {
      var b0, last := b[..|b| - 1], b[|b| - 1];
      var ab := a + b;
      DropLastOfAppend(a, b);
      var block := Annotate(last, last.doctors);
      assert DoctorEntries(ab) == DoctorEntries(a + b0) + block;
      assert DoctorEntries(b) == DoctorEntries(b0) + block;
      DoctorEntriesAppend(a, b0);
      assert DoctorEntries(ab) == (DoctorEntries(a) + DoctorEntries(b0)) + block;
    }
  }

  /** The flat list of a single department is that department's doctors, annotated. */
  lemma DoctorEntriesSingle(d: Department)
    ensures DoctorEntries([d]) == Annotate(d, d.doctors)
  {
    assert [d][..0] == [];
  }

  /** The flat list around department i: the entries of the departments
      before it, its own block, and the entries of those after it. */
  lemma DoctorEntriesSplit(ds: seq<Department>, i: nat)
    requires i < |ds|
    ensures DoctorEntries(ds) == DoctorEntries(ds[..i]) + (Annotate(ds[i], ds[i].doctors) + DoctorEntries(ds[i + 1..]))
  {
    var rest := [ds[i]] + ds[i + 1..];
    Around(ds, i);
    DoctorEntriesAppend(ds[..i], rest);
    DoctorEntriesAppend([ds[i]], ds[i + 1..]);
    DoctorEntriesSingle(ds[i]);
  }

  /** Fixed order: doctor j of department i sits right after all doctors of
      the departments before i and the first j doctors of department i. */
  lemma DoctorEntriesAt(ds: seq<Department>, i: nat, j: nat)
    requires i < |ds| && j < |ds[i].doctors|
    ensures DoctorCount(ds[..i]) + j < |DoctorEntries(ds)|
    ensures DoctorEntries(ds)[DoctorCount(ds[..i]) + j] == EntryOf(ds[i], ds[i].doctors[j])
  {
    var a, b, c := DoctorEntries(ds[..i]), Annotate(ds[i], ds[i].doctors), DoctorEntries(ds[i + 1..]);
    DoctorEntriesSplit(ds, i);
    DoctorEntriesLength(ds[..i]);
    MiddleIndex(a, b, c, j);
  }

  /** Index j of the middle part of a three-part concatenation. */
  lemma MiddleIndex<T>(a: seq<T>, b: seq<T>, c: seq<T>, j: nat)
    requires j < |b|
    ensures |a| + j < |a + (b + c)| && (a + (b + c))[|a| + j] == b[j]
  {
  }

  /** Nothing else: every entry is the annotation of some stored doctor by
      the department that holds it. */
  lemma {:induction false} DoctorEntriesSound(ds: seq<Department>, k: nat)
    requires k < |DoctorEntries(ds)|
    ensures exists i, j :: 0 <= i < |ds| && 0 <= j < |ds[i].doctors| && DoctorEntries(ds)[k] == EntryOf(ds[i], ds[i].doctors[j])
  {
    var init, last := ds[..|ds| - 1], ds[|ds| - 1];
    if k < |DoctorEntries(init)| {
      DoctorEntriesSound(init, k);
      var i, j :| 0 <= i < |init| && 0 <= j < |init[i].doctors| && DoctorEntries(init)[k] == EntryOf(init[i], init[i].doctors[j]);
      assert init[i] == ds[i];
    } else {
      var j := k - |DoctorEntries(init)|;
      assert DoctorEntries(ds)[k] == EntryOf(last, last.doctors[j]);
    }
  }

  /** Deleting a department removes exactly its block of entries from the
      flat list; the entries before and after it stay, in order. */
  lemma DeleteDepartmentDropsItsDoctors(h: Hospital, departmentName: string)
    requires DeleteDepartment(h, departmentName).Ok?
    ensures
      var ds := h.departments;
      var i := DepartmentByName(ds, departmentName).value;
      && DoctorEntries(ds) == DoctorEntries(ds[..i]) + (Annotate(ds[i], ds[i].doctors) + DoctorEntries(ds[i + 1..]))
      && DoctorEntries(DeleteDepartment(h, departmentName).value.departments) == DoctorEntries(ds[..i]) + DoctorEntries(ds[i + 1..])
  {
    var ds := h.departments;
    var i := DepartmentByName(ds, departmentName).value;
    var ds' := DeleteDepartment(h, departmentName).value.departments;
    DoctorEntriesSplit(ds, i);
    assert ds' == ds'[..i] + ds'[i..] == ds[..i] + ds[i + 1..];
    DoctorEntriesAppend(ds[..i], ds[i + 1..]);
  }

  /** With distinct department ids, no entry listed after a deletion names
      the deleted department. */
  lemma DeletedDepartmentLeavesNoEntries(h: Hospital, bound: Id, departmentName: string, k: nat)
    requires HospitalWellFormed(h, bound)
    requires DeleteDepartment(h, departmentName).Ok?
    requires k < |DoctorEntries(DeleteDepartment(h, departmentName).value.departments)|
    ensures
      var gone := h.departments[DepartmentByName(h.departments, departmentName).value];
      DoctorEntries(DeleteDepartment(h, departmentName).value.departments)[k].department.id != gone.id
  {
    var ds := h.departments;
    var i := DepartmentByName(ds, departmentName).value;
    var ds' := DeleteDepartment(h, departmentName).value.departments;
    DeleteDepartmentRemovesId(h, bound, departmentName);
    DoctorEntriesSound(ds', k);
  }
}
