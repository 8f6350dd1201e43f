/** The document shapes of the hospital collection: a hospital embeds an
    ordered list of departments, and each department embeds an ordered list
    of doctors and two ordered lists of names (equipment and facilities).
    Every embedded record carries a generated sub-id. */
module HospitalSchema {
  import opened Lookup

  /** Generated identifiers (hospital ids and department/doctor sub-ids). */
  type Id = nat

  /** The only two values the doctor schema admits for `availability`. */
  datatype Availability = Available | Unavailable

  datatype Doctor = Doctor(
    id: Id,
    name: string,
    specialization: string,
    availability: Availability)

  /** Bed counts are plain numbers: the schema relates them to nothing. */
  datatype Department = Department(
    id: Id,
    name: string,
    totalBeds: int,
    availableBeds: int,
    doctors: seq<Doctor>,
    equipment: seq<string>,
    facilities: seq<string>)

  /** The hospital's own id is the key it is stored under, not a field. */
  datatype Hospital = Hospital(
    hospitalName: string,
    state: string,
    city: string,
    pincode: string,
    contactNumber: string,
    password: string,
    departments: seq<Department>)

  /** The stored spelling of an availability value. */
  function AvailabilityName(a: Availability): string
  {
    match a
    case Available => "Available"
    case Unavailable => "Unavailable"
  }

  /** Enum validation of the doctor schema: a string is accepted only when it
      is one of the two declared spellings. */
  function ParseAvailability(s: string): (r: Option<Availability>)
    ensures r.Some? <==> (s == "Available" || s == "Unavailable")
    ensures r.Some? ==> AvailabilityName(r.value) == s
  {
    if s == "Available" then Some(Available)
    else if s == "Unavailable" then Some(Unavailable)
    else None
  }

  /** Parsing inverts printing: every availability value survives a round trip. */
  lemma AvailabilityRoundTrip(a: Availability)
    ensures ParseAvailability(AvailabilityName(a)) == Some(a)
  {
    match a
    case Available =>
    case Unavailable =>
  }

  // ---------------------------------------------------------------------
  // Well-formedness of generated ids: every id was handed out before the
  // current counter value, and sub-ids are distinct within their list.
  // ---------------------------------------------------------------------

  ghost predicate DoctorsWellFormed(docs: seq<Doctor>, bound: Id)
  {
    && (forall i :: 0 <= i < |docs| ==> docs[i].id < bound)
    && (forall i, j :: 0 <= i < j < |docs| ==> docs[i].id != docs[j].id)
  }

  ghost predicate DepartmentWellFormed(d: Department, bound: Id)
  {
    d.id < bound && DoctorsWellFormed(d.doctors, bound)
  }

  ghost predicate DepartmentsWellFormed(ds: seq<Department>, bound: Id)
  {
    && (forall i :: 0 <= i < |ds| ==> DepartmentWellFormed(ds[i], bound))
    && (forall i, j :: 0 <= i < j < |ds| ==> ds[i].id != ds[j].id)
  }

  ghost predicate HospitalWellFormed(h: Hospital, bound: Id)
  {
    DepartmentsWellFormed(h.departments, bound)
  }

  /** The `unique` constraint on contactNumber across the collection. */
  ghost predicate ContactsUnique(hs: map<Id, Hospital>)
  {
    forall a, b :: a in hs && b in hs && hs[a].contactNumber == hs[b].contactNumber ==> a == b
  }
}
