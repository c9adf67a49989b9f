/**
 * Record shapes of the dispatch core (shared/schema.ts): ambulances, SOS
 * incidents, OTP sessions, patients and medical records, the partial updates
 * the store merges into them, and the reply shape of the HTTP handlers.
 */
module Schema {

  /** Record ids. The store's ids come from randomUUID or the seed data and a
      route parameter never matches the empty string, so ids are never empty;
      that makes JavaScript truthiness of an id the same as its presence. */
  type Id = s: string | |s| > 0 witness "0"

  datatype Option<+T> = None | Some(value: T) {
    function GetOr(default: T): T {
      match this
      case Some(v) => v
      case None => default
    }
  }

  /** The statuses of an ambulance. The seed data and the handlers only
      ever write `available` and `busy`; `offline` is the schema's third
      value. */
  datatype AmbulanceStatus = Available | Busy | Offline

  datatype Ambulance = Ambulance(
    id: Id,
    vehicleNumber: string,
    driverName: string,
    driverPhone: string,
    status: AmbulanceStatus,
    latitude: real,
    longitude: real,
    hospitalId: Option<string>)
  {
    /** Object spread of the patch over the record: every field the patch names takes the
        patch's value, every other field keeps its own. */
    function Merge(updates: AmbulancePatch): (r: Ambulance)
      ensures r.id == id
      ensures updates.vehicleNumber.Some? ==> r.vehicleNumber == updates.vehicleNumber.value
      ensures updates.vehicleNumber.None? ==> r.vehicleNumber == vehicleNumber
      ensures updates.driverName.Some? ==> r.driverName == updates.driverName.value
      ensures updates.driverName.None? ==> r.driverName == driverName
      ensures updates.driverPhone.Some? ==> r.driverPhone == updates.driverPhone.value
      ensures updates.driverPhone.None? ==> r.driverPhone == driverPhone
      ensures updates.status.Some? ==> r.status == updates.status.value
      ensures updates.status.None? ==> r.status == status
      ensures updates.latitude.Some? ==> r.latitude == updates.latitude.value
      ensures updates.latitude.None? ==> r.latitude == latitude
      ensures updates.longitude.Some? ==> r.longitude == updates.longitude.value
      ensures updates.longitude.None? ==> r.longitude == longitude
      ensures updates.hospitalId.Some? ==> r.hospitalId == updates.hospitalId.value
      ensures updates.hospitalId.None? ==> r.hospitalId == hospitalId
    {
      Ambulance(
        id,
        updates.vehicleNumber.GetOr(vehicleNumber),
        updates.driverName.GetOr(driverName),
        updates.driverPhone.GetOr(driverPhone),
        updates.status.GetOr(status),
        updates.latitude.GetOr(latitude),
        updates.longitude.GetOr(longitude),
        updates.hospitalId.GetOr(hospitalId))
    }
  }

  /** `Partial<Ambulance>` without `id`: a field is present in the patch
      exactly when it is `Some`. */
  datatype AmbulancePatch = AmbulancePatch(
    vehicleNumber: Option<string>,
    driverName: Option<string>,
    driverPhone: Option<string>,
    status: Option<AmbulanceStatus>,
    latitude: Option<real>,
    longitude: Option<real>,
    hospitalId: Option<Option<string>>)

  /** The only patch the handlers send to the ambulance store: a new status. */
  function StatusPatch(status: AmbulanceStatus): AmbulancePatch {
    AmbulancePatch(None, None, None, Some(status), None, None, None)
  }

  datatype IncidentStatus = Pending | Assigned | EnRoute | Arrived | Resolved

  datatype SosIncident = SosIncident(
    id: Id,
    patientId: string,
    latitude: real,
    longitude: real,
    status: IncidentStatus,
    assignedAmbulanceId: Option<Id>,
    createdAt: string,
    resolvedAt: Option<string>,
    eta: Option<string>,
    notes: Option<string>)
  {
    /** Object spread of the patch over the incident, as for ambulances. */
    function Merge(updates: IncidentPatch): (r: SosIncident)
      ensures r.id == id
      ensures updates.patientId.Some? ==> r.patientId == updates.patientId.value
      ensures updates.patientId.None? ==> r.patientId == patientId
      ensures updates.latitude.Some? ==> r.latitude == updates.latitude.value
      ensures updates.latitude.None? ==> r.latitude == latitude
      ensures updates.longitude.Some? ==> r.longitude == updates.longitude.value
      ensures updates.longitude.None? ==> r.longitude == longitude
      ensures updates.status.Some? ==> r.status == updates.status.value
      ensures updates.status.None? ==> r.status == status
      ensures updates.assignedAmbulanceId.Some? ==> r.assignedAmbulanceId == updates.assignedAmbulanceId.value
      ensures updates.assignedAmbulanceId.None? ==> r.assignedAmbulanceId == assignedAmbulanceId
      ensures updates.createdAt.Some? ==> r.createdAt == updates.createdAt.value
      ensures updates.createdAt.None? ==> r.createdAt == createdAt
      ensures updates.resolvedAt.Some? ==> r.resolvedAt == updates.resolvedAt.value
      ensures updates.resolvedAt.None? ==> r.resolvedAt == resolvedAt
      ensures updates.eta.Some? ==> r.eta == updates.eta.value
      ensures updates.eta.None? ==> r.eta == eta
      ensures updates.notes.Some? ==> r.notes == updates.notes.value
      ensures updates.notes.None? ==> r.notes == notes
    {
      SosIncident(
        id,
        updates.patientId.GetOr(patientId),
        updates.latitude.GetOr(latitude),
        updates.longitude.GetOr(longitude),
        updates.status.GetOr(status),
        updates.assignedAmbulanceId.GetOr(assignedAmbulanceId),
        updates.createdAt.GetOr(createdAt),
        updates.resolvedAt.GetOr(resolvedAt),
        updates.eta.GetOr(eta),
        updates.notes.GetOr(notes))
    }
  }

  /** `Partial<SosIncident>` without `id`. */
  datatype IncidentPatch = IncidentPatch(
    patientId: Option<string>,
    latitude: Option<real>,
    longitude: Option<real>,
    status: Option<IncidentStatus>,
    assignedAmbulanceId: Option<Option<Id>>,
    createdAt: Option<string>,
    resolvedAt: Option<Option<string>>,
    eta: Option<Option<string>>,
    notes: Option<Option<string>>)

  /** The patch the manual assignment sends: the ambulance, status assigned, the ETA. */
  function AssignPatch(ambulanceId: Id, eta: string): IncidentPatch {
    IncidentPatch(None, None, None, Some(Assigned), Some(Some(ambulanceId)), None, None, Some(Some(eta)), None)
  }

  /** The patch the resolution sends: status resolved and the resolution time. */
  function ResolvePatch(resolvedAt: string): IncidentPatch {
    IncidentPatch(None, None, None, Some(Resolved), None, None, Some(Some(resolvedAt)), None, None)
  }

  /** An OTP session; `expiresAt` is the expiry instant in milliseconds since
      the epoch (the source stores its ISO-8601 rendering, which `new Date`
      parses back to the same instant). */
  datatype OtpSession = OtpSession(
    id: Id,
    abhaId: string,
    otp: string,
    expiresAt: int,
    verified: bool)

  datatype Patient = Patient(
    id: Id,
    abhaId: string,
    name: string,
    phone: string,
    email: Option<string>,
    dateOfBirth: Option<string>,
    bloodGroup: Option<string>,
    address: Option<string>,
    emergencyContact: Option<string>)

  /** A medical record; the schema's column `type` is called `kind` here. */
  datatype MedicalRecord = MedicalRecord(
    id: Id,
    patientId: string,
    kind: string,
    title: string,
    doctorName: string,
    hospitalName: Option<string>,
    date: string,
    fileUrl: Option<string>,
    notes: Option<string>)

  function AmbulanceId(a: Ambulance): Id { a.id }

  function IncidentId(i: SosIncident): Id { i.id }

  function SessionId(s: OtpSession): Id { s.id }

  /** What a handler sends back: an error status with its message, or a
      success status with a body. */
  datatype Reply<+T> = Fail(status: nat, error: string) | Success(status: nat, body: T)

  lemma {:induction false} AmbulanceMergeIdempotent(a: Ambulance, updates: AmbulancePatch)
    ensures a.Merge(updates).Merge(updates) == a.Merge(updates)
    ensures a.Merge(updates).id == a.id
  {
  }

  lemma {:induction false} IncidentMergeIdempotent(i: SosIncident, updates: IncidentPatch)
    ensures i.Merge(updates).Merge(updates) == i.Merge(updates)
    ensures i.Merge(updates).id == i.id
  {
  }
}
