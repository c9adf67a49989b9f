/**
 * The HTTP handlers of the core (server/routes.ts) as methods on the store:
 * each makes the store calls the source makes, in the same order, with the
 * same early returns. The dispatch handlers are proved to leave the store
 * exactly as the Dispatch functions say; the OTP handlers carry their
 * check ladder in their contracts.
 */
module Routes {
  import opened Schema
  import opened Tables
  import opened Ranking
  import opened Storage
  import opened Dispatch
  import opened Otp

  /** The tables the dispatch handlers work on. */
  function StateOf(st: MemStorage): State
    reads st
  {
    State(st.ambulances, st.incidents)
  }

  // ---------------------------------------------------------------------------
  // Dispatch

  /** `POST /api/sos` (lines 180-256). */
  method HandleSos(st: MemStorage, request: SosRequest, dist: Metric, clock: string, freshId: Id)
      returns (reply: Reply<SosBody>)
    requires st.Valid()
    modifies st
    ensures st.Valid()
    ensures var out := Sos(old(StateOf(st)), request, dist, clock, freshId);
      StateOf(st) == out.state && reply == out.reply
    ensures st.otpSessions == old(st.otpSessions)
    ensures st.patients == old(st.patients) && st.medicalRecords == old(st.medicalRecords)
  {
    if !WellFormed(request) {
      return Fail(400, InvalidSosRequest);
    }
    var patientId, lat, lon := request.patientId.value, request.latitude.value, request.longitude.value;
    var fleet := st.GetAmbulances();
    assert fleet == old(StateOf(st)).ambulances.Values();
    var nearest := NearestThree(Ranked(fleet, lat, lon, dist));
    var eta := if nearest == [] then FallbackEta else EtaText(nearest[0].eta);
    ReserveNearest(st, nearest);
    var status := if nearest == [] then Pending else Assigned;
    var assignee := if nearest == [] then None else Some(nearest[0].ambulance.id);
    var incident := st.CreateIncident(freshId, SosIncident(freshId, patientId, lat, lon, status, assignee, clock, None, Some(eta), None));
    var contact := if nearest == [] then None else Some(ContactOf(nearest[0].ambulance));
    reply := Success(201, SosBody(incident, contact, NearbyView(nearest)));
  }

  /** Makes the nearest candidate's ambulance busy, when there is one. */
  method ReserveNearest(st: MemStorage, nearest: seq<Candidate>)
    requires st.Valid()
    modifies st`ambulances
    ensures st.Valid()
    ensures nearest == [] ==> st.ambulances == old(st.ambulances)
    ensures nearest != [] ==>
      st.ambulances == AmbulancesAfterUpdate(old(st.ambulances), nearest[0].ambulance.id, StatusPatch(Busy))
  {
    if nearest != [] {
      var reserved := st.UpdateAmbulance(nearest[0].ambulance.id, StatusPatch(Busy));
    }
  }

  /** `POST /api/incidents/:id/assign` (lines 258-310). */
  method HandleAssign(st: MemStorage, incidentId: Id, ambulanceId: Option<string>, dist: Metric)
      returns (reply: Reply<AssignBody>)
    requires st.Valid()
    modifies st
    ensures st.Valid()
    ensures var out := Assign(old(StateOf(st)), incidentId, ambulanceId, dist);
      StateOf(st) == out.state && reply == out.reply
    ensures st.otpSessions == old(st.otpSessions)
    ensures st.patients == old(st.patients) && st.medicalRecords == old(st.medicalRecords)
  {
    if !Given(ambulanceId) {
      return Fail(400, AmbulanceIdRequired);
    }
    var incident := st.GetIncident(incidentId);
    if incident.None? {
      return Fail(404, IncidentNotFound);
    }
    var aid: Id := ambulanceId.value;
    var ambulance := st.GetAmbulance(aid);
    if ambulance.None? {
      return Fail(404, AmbulanceNotFound);
    }
    var inc, amb := incident.value, ambulance.value;
    var eta := EtaText(EtaMinutes(DistanceTo(amb, inc.latitude, inc.longitude, dist)));
    var updated := WriteAssignment(st, incidentId, aid, eta);
    reply := Success(200, AssignBody(updated, ContactOf(amb), eta));
  }

  /** The writes of a successful assignment, in the handler's order: reserve
      the target, release a different previous ambulance, update the
      incident; returns the updated incident. */
  method WriteAssignment(st: MemStorage, incidentId: Id, aid: Id, eta: string) returns (updated: SosIncident)
    requires st.Valid() && incidentId in st.incidents.entries
    modifies st
    ensures st.Valid()
    ensures StateOf(st) == AssignedState(old(StateOf(st)), incidentId, aid, eta)
    ensures st.incidents.Get(incidentId) == Some(updated)
    ensures st.otpSessions == old(st.otpSessions)
    ensures st.patients == old(st.patients) && st.medicalRecords == old(st.medicalRecords)
  {
    var previous := st.incidents.entries[incidentId].assignedAmbulanceId;
    var reserved := st.UpdateAmbulance(aid, StatusPatch(Busy));
    ReleasePreviousAmbulance(st, previous, aid);
    var result := st.UpdateIncident(incidentId, AssignPatch(aid, eta));
    updated := result.value;
  }

  /** Makes the incident's previous ambulance available when there is one
      and it is not the one being assigned. */
  method ReleasePreviousAmbulance(st: MemStorage, previous: Option<Id>, aid: Id)
    requires st.Valid()
    modifies st`ambulances
    ensures st.Valid()
    ensures st.ambulances == ReleasePrevious(old(st.ambulances), previous, aid)
  {
    if previous.Some? && previous.value != aid {
      var released := st.UpdateAmbulance(previous.value, StatusPatch(Available));
    }
  }

  /** `POST /api/incidents/:id/resolve` (lines 312-340). */
  method HandleResolve(st: MemStorage, incidentId: Id, clock: string) returns (reply: Reply<SosIncident>)
    requires st.Valid()
    modifies st
    ensures st.Valid()
    ensures var out := Resolve(old(StateOf(st)), incidentId, clock);
      StateOf(st) == out.state && reply == out.reply
    ensures st.otpSessions == old(st.otpSessions)
    ensures st.patients == old(st.patients) && st.medicalRecords == old(st.medicalRecords)
  {
    var incident := st.GetIncident(incidentId);
    if incident.None? {
      return Fail(404, IncidentNotFound);
    }
    if incident.value.assignedAmbulanceId.Some? {
      var released := st.UpdateAmbulance(incident.value.assignedAmbulanceId.value, StatusPatch(Available));
    }
    var updated := st.UpdateIncident(incidentId, ResolvePatch(clock));
    reply := Success(200, updated.value);
  }

  // ---------------------------------------------------------------------------
  // OTP login

  /** A field of a JSON request body: absent, a string, or a value of
      another type, which JavaScript treats as true or false in a test. */
  datatype BodyField = Missing | Text(text: string) | NonText(truthy: bool)

  predicate Truthy(field: BodyField) {
    match field
    case Missing => false
    case Text(text) => text != ""
    case NonText(truthy) => truthy
  }

  datatype OtpIssued = OtpIssued(sessionId: Id, message: string, otp: string)

  datatype OtpVerified = OtpVerified(message: string, patient: Patient)

  const AbhaIdRequired: string := "ABHA ID is required"
  const NoPatientWithAbhaId: string := "Patient not found with this ABHA ID"
  const OtpSent: string := "OTP sent successfully"
  const OtpRequestFailed: string := "Failed to send OTP"
  const SessionAndOtpRequired: string := "Session ID and OTP are required"
  const SessionNotFound: string := "Session not found"
  const OtpExpired: string := "OTP has expired"
  const InvalidOtp: string := "Invalid OTP"
  const PatientNotFound: string := "Patient not found"
  const OtpVerifiedMessage: string := "OTP verified successfully"

  /** `POST /api/auth/request-otp` (lines 30-62). `draw` is the value of
      `Math.random()`, `now` the clock in milliseconds and `freshId` the id
      the store draws for the session. An `abhaId` that is true in a test
      but not a string has no `toLowerCase`: the lookup throws as soon as it
      compares it with a patient, and the handler answers 500; with no
      patient stored nothing is compared and the answer is 404. */
  method RequestOtp(st: MemStorage, abhaId: BodyField, draw: real, now: int, freshId: Id)
      returns (reply: Reply<OtpIssued>)
    requires st.Valid() && 0.0 <= draw < 1.0
    modifies st
    ensures st.Valid()
    ensures StateOf(st) == old(StateOf(st))
    ensures st.patients == old(st.patients) && st.medicalRecords == old(st.medicalRecords)
    ensures !Truthy(abhaId) ==> reply == Fail(400, AbhaIdRequired) && st.otpSessions == old(st.otpSessions)
    ensures abhaId == NonText(true) ==>
      && reply == (if st.patients.keys == [] then Fail(404, NoPatientWithAbhaId) else Fail(500, OtpRequestFailed))
      && st.otpSessions == old(st.otpSessions)
    ensures Truthy(abhaId) && abhaId.Text? && st.GetPatientByAbhaId(abhaId.text).None? ==>
      reply == Fail(404, NoPatientWithAbhaId) && st.otpSessions == old(st.otpSessions)
    ensures Truthy(abhaId) && abhaId.Text? && st.GetPatientByAbhaId(abhaId.text).Some? ==>
      var session := OtpSession(freshId, st.GetPatientByAbhaId(abhaId.text).value.abhaId, GenerateOtp(draw),
                                ExpiresAt(now), false);
      && st.otpSessions == old(st.otpSessions).Set(freshId, session)
      && reply == Success(200, OtpIssued(freshId, OtpSent, GenerateOtp(draw)))
  {
    if !Truthy(abhaId) {
      return Fail(400, AbhaIdRequired);
    }
    if abhaId.NonText? {
      if st.patients.keys == [] {
        return Fail(404, NoPatientWithAbhaId);
      }
      return Fail(500, OtpRequestFailed);
    }
    var patient := st.GetPatientByAbhaId(abhaId.text);
    if patient.None? {
      return Fail(404, NoPatientWithAbhaId);
    }
    var otp := GenerateOtp(draw);
    var session := st.CreateOtpSession(freshId, OtpSession(freshId, patient.value.abhaId, otp, ExpiresAt(now), false));
    reply := Success(200, OtpIssued(session.id, OtpSent, otp));
  }

  /** `POST /api/auth/verify-otp` (lines 64-100): the four checks in order,
      each answering before any change; the session is marked verified only
      when all four pass, and the patient lookup comes after that. */
  method VerifyOtp(st: MemStorage, sessionId: Option<string>, otp: Option<string>, now: int)
      returns (reply: Reply<OtpVerified>)
    requires st.Valid()
    modifies st
    ensures st.Valid()
    ensures StateOf(st) == old(StateOf(st))
    ensures st.patients == old(st.patients) && st.medicalRecords == old(st.medicalRecords)
    ensures !Given(sessionId) || !Given(otp) ==>
      reply == Fail(400, SessionAndOtpRequired) && st.otpSessions == old(st.otpSessions)
    ensures Given(sessionId) && Given(otp) && sessionId.value !in old(st.otpSessions.entries) ==>
      reply == Fail(404, SessionNotFound) && st.otpSessions == old(st.otpSessions)
    ensures Given(sessionId) && Given(otp) && sessionId.value in old(st.otpSessions.entries) ==>
      var session := old(st.otpSessions.entries[sessionId.value]);
      && (Expired(session.expiresAt, now) ==>
            reply == Fail(400, OtpExpired) && st.otpSessions == old(st.otpSessions))
      && (!Expired(session.expiresAt, now) && session.otp != otp.value ==>
            reply == Fail(400, InvalidOtp) && st.otpSessions == old(st.otpSessions))
      && (!Expired(session.expiresAt, now) && session.otp == otp.value ==>
            && st.otpSessions == SessionsAfterVerify(old(st.otpSessions), sessionId.value)
            && st.otpSessions.Get(sessionId.value) == Some(session.(verified := true))
            && reply == match st.GetPatientByAbhaId(session.abhaId)
                        case None => Fail(404, PatientNotFound)
                        case Some(p) => Success(200, OtpVerified(OtpVerifiedMessage, p)))
  {
    if !Given(sessionId) || !Given(otp) {
      return Fail(400, SessionAndOtpRequired);
    }
    var id: Id := sessionId.value;
    var session := st.GetOtpSession(id);
    if session.None? {
      return Fail(404, SessionNotFound);
    }
    if Expired(session.value.expiresAt, now) {
      return Fail(400, OtpExpired);
    }
    if session.value.otp != otp.value {
      return Fail(400, InvalidOtp);
    }
    var verified := st.VerifyOtpSession(id);
    var patient := st.GetPatientByAbhaId(session.value.abhaId);
    if patient.None? {
      return Fail(404, PatientNotFound);
    }
    reply := Success(200, OtpVerified(OtpVerifiedMessage, patient.value));
  }
}
