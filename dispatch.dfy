/**
 * What the three dispatch handlers of server/routes.ts do to the ambulance
 * and incident tables, and what they answer, as functions of the tables
 * before the request: SOS (lines 180-256), manual assignment (258-310) and
 * resolution (312-340). The handlers themselves, which reach the same result
 * through a sequence of store calls, are in the Routes module.
 *
 * The handlers never check that an ambulance is free before reserving it,
 * nor that the ambulance an incident names is still serving that incident
 * when it is released; so nothing here claims that a busy ambulance serves
 * at most one active incident.
 */
module Dispatch {
  import opened Schema
  import opened Tables
  import opened Sorting
  import opened Ranking
  import opened Storage

  /** The part of the store the dispatch handlers read and write. */
  datatype State = State(ambulances: Table<Ambulance>, incidents: Table<SosIncident>) {
    ghost predicate Valid() {
      && ambulances.Valid() && KeyedBy(ambulances, AmbulanceId)
      && incidents.Valid() && KeyedBy(incidents, IncidentId)
    }
  }

  /** A handler's effect: the tables afterwards and the reply. */
  datatype Outcome<T> = Outcome(state: State, reply: Reply<T>)

  /** The contact details a reply gives for an ambulance. */
  datatype Contact = Contact(vehicleNumber: string, driverName: string, driverPhone: string)

  function ContactOf(a: Ambulance): Contact {
    Contact(a.vehicleNumber, a.driverName, a.driverPhone)
  }

  // ---------------------------------------------------------------------------
  // SOS

  /** The SOS body after schema validation: a field is `None` when it is
      missing or has the wrong type. */
  datatype SosRequest = SosRequest(patientId: Option<string>, latitude: Option<real>, longitude: Option<real>)

  predicate WellFormed(request: SosRequest) {
    request.patientId.Some? && request.latitude.Some? && request.longitude.Some?
  }

  datatype SosBody = SosBody(incident: SosIncident, assignedAmbulance: Option<Contact>, nearestAmbulances: seq<Nearby>)

  /** Stands for the schema library's validation message. */
  const InvalidSosRequest: string := "Invalid SOS request"

  /** The incident an SOS creates, given the nearest candidates: at the
      request's place and time, open, pending exactly when it has no
      ambulance, and otherwise assigned to the first candidate with that
      candidate's ETA. */
  function SosIncidentFor(freshId: Id, patientId: string, lat: real, lon: real, nearest: seq<Candidate>, clock: string): (r: SosIncident)
    ensures r.id == freshId && r.patientId == patientId && r.latitude == lat && r.longitude == lon
    ensures r.createdAt == clock && r.resolvedAt == None && r.notes == None
    ensures r.status == Pending <==> r.assignedAmbulanceId == None
    ensures r.status == Pending || r.status == Assigned
    ensures nearest == [] ==> r.assignedAmbulanceId == None && r.eta == Some(FallbackEta)
    ensures nearest != [] ==> r.assignedAmbulanceId == Some(nearest[0].ambulance.id) && r.eta == Some(EtaText(nearest[0].eta))
  {
    SosIncident(freshId, patientId, lat, lon,
                if nearest == [] then Pending else Assigned,
                if nearest == [] then None else Some(nearest[0].ambulance.id),
                clock, None,
                Some(if nearest == [] then FallbackEta else EtaText(nearest[0].eta)),
                None)
  }

  /** `POST /api/sos`. `clock` is the display time of the request and
      `freshId` the id the store draws for the new incident. */
  function Sos(s: State, request: SosRequest, dist: Metric, clock: string, freshId: Id): (out: Outcome<SosBody>)
    requires s.Valid()
    ensures out.state.Valid()
  {
    if !WellFormed(request) then Outcome(s, Fail(400, InvalidSosRequest))
    else
      var lat, lon := request.latitude.value, request.longitude.value;
      var nearest := NearestThree(Ranked(s.ambulances.Values(), lat, lon, dist));
      var ambulances :=
        if nearest == [] then s.ambulances
        else AmbulancesAfterUpdate(s.ambulances, nearest[0].ambulance.id, StatusPatch(Busy));
      var incident := SosIncidentFor(freshId, request.patientId.value, lat, lon, nearest, clock);
      var contact := if nearest == [] then None else Some(ContactOf(nearest[0].ambulance));
      Outcome(State(ambulances, s.incidents.Set(freshId, incident)),
              Success(201, SosBody(incident, contact, NearbyView(nearest))))
  }

  /** A request that fails validation is answered 400 and changes nothing. */
  lemma {:induction false} SosRejectsMalformed(s: State, request: SosRequest, dist: Metric, clock: string, freshId: Id)
    requires s.Valid() && !WellFormed(request)
    ensures Sos(s, request, dist, clock, freshId) == Outcome(s, Fail(400, InvalidSosRequest))
  {
  }

  /** With no ambulance available the incident is created pending, with no
      ambulance and the fallback ETA, and no ambulance changes. */
  lemma {:induction false} SosPendingWhenNoneAvailable(s: State, request: SosRequest, dist: Metric, clock: string, freshId: Id)
    requires s.Valid() && WellFormed(request)
    requires forall k :: k in s.ambulances.entries ==> s.ambulances.entries[k].status != Available
    ensures var out := Sos(s, request, dist, clock, freshId);
      && out.reply.Success? && out.reply.status == 201
      && out.reply.body.incident.status == Pending
      && out.reply.body.incident.assignedAmbulanceId == None
      && out.reply.body.incident.eta == Some("15 min")
      && out.reply.body.incident.resolvedAt == None
      && out.reply.body.assignedAmbulance == None
      && out.reply.body.nearestAmbulances == []
      && out.state.ambulances == s.ambulances
      && out.state.incidents == s.incidents.Set(freshId, out.reply.body.incident)
  {
    var fleet := s.ambulances.Values();
    var lat, lon := request.latitude.value, request.longitude.value;
    if AvailableOf(fleet) != [] {
      var a := AvailableOf(fleet)[0];
      assert a in AvailableOf(fleet);
      KeyedValues(s.ambulances, AmbulanceId);
      assert false;
    }
    RankedCandidates(fleet, lat, lon, dist);
  }

  /** Some ambulance in the store is available exactly when the filtered
      fleet is not empty. */
  lemma {:induction false} SomeAvailable(s: State)
    requires s.Valid()
    ensures (exists k :: k in s.ambulances.entries && s.ambulances.entries[k].status == Available)
            <==> |AvailableOf(s.ambulances.Values())| > 0
  {
    var fleet := s.ambulances.Values();
    KeyedValues(s.ambulances, AmbulanceId);
    if k :| k in s.ambulances.entries && s.ambulances.entries[k].status == Available {
      var p :| 0 <= p < |s.ambulances.keys| && s.ambulances.keys[p] == k;
      assert fleet[p] in AvailableOf(fleet);
    }
    if |AvailableOf(fleet)| > 0 {
      var a := AvailableOf(fleet)[0];
      assert a in AvailableOf(fleet);
      assert a.id in s.ambulances.entries && s.ambulances.entries[a.id].status == Available;
    }
  }

  /** The reply of a well-formed SOS is consistent with the store it
      leaves: the incident it returns is the one stored under the fresh id,
      and it carries contact details exactly when the incident names an
      ambulance, those of that ambulance. */
  lemma {:induction false} SosReplyStored(s: State, request: SosRequest, dist: Metric, clock: string, freshId: Id)
    requires s.Valid() && WellFormed(request)
    ensures var out := Sos(s, request, dist, clock, freshId);
      var incident := out.reply.body.incident;
      && out.reply.Success? && out.reply.status == 201
      && incident.id == freshId
      && out.state.incidents.Get(freshId) == Some(incident)
      && (out.reply.body.assignedAmbulance.Some? <==> incident.assignedAmbulanceId.Some?)
      && (forall k :: incident.assignedAmbulanceId == Some(k) ==>
            && k in s.ambulances.entries
            && out.reply.body.assignedAmbulance == Some(ContactOf(s.ambulances.entries[k]))
            && out.state.ambulances.Get(k).Some?
            && ContactOf(out.state.ambulances.Get(k).value) == ContactOf(s.ambulances.entries[k]))
  {
    var lat, lon := request.latitude.value, request.longitude.value;
    var fleet := s.ambulances.Values();
    var nearest := NearestThree(Ranked(fleet, lat, lon, dist));
    if nearest != [] {
      RankedCandidates(fleet, lat, lon, dist);
      assert nearest[0] == Ranked(fleet, lat, lon, dist)[0];
      var a := nearest[0].ambulance;
      assert a in fleet;
      KeyedValues(s.ambulances, AmbulanceId);
      assert s.ambulances.entries[a.id] == a;
    }
  }

  /** With an ambulance available, the SOS assigns the first, in store order,
      of the available ambulances at the smallest distance. */
  lemma {:induction false} SosChoosesFirstClosest(s: State, request: SosRequest, dist: Metric, clock: string, freshId: Id)
    requires s.Valid() && WellFormed(request)
    requires exists k :: k in s.ambulances.entries && s.ambulances.entries[k].status == Available
    ensures var lat, lon := request.latitude.value, request.longitude.value;
      var av := AvailableOf(s.ambulances.Values());
      var out := Sos(s, request, dist, clock, freshId);
      && out.reply.Success? && out.reply.status == 201
      && out.reply.body.incident.assignedAmbulanceId.Some?
      && exists i :: FirstClosest(av, i, lat, lon, dist) && out.reply.body.incident.assignedAmbulanceId == Some(av[i].id)
  {
    var lat, lon := request.latitude.value, request.longitude.value;
    var fleet := s.ambulances.Values();
    var av := AvailableOf(fleet);
    var r := Ranked(fleet, lat, lon, dist);
    SomeAvailable(s);
    NearestIsFirstClosest(fleet, lat, lon, dist);
    var i :| FirstClosest(av, i, lat, lon, dist) && r[0] == Measure(av[i], lat, lon, dist);
    assert Sos(s, request, dist, clock, freshId).reply.body.incident.assignedAmbulanceId == Some(r[0].ambulance.id);
  }

  /** With an ambulance available, the SOS makes the chosen ambulance, which
      was available, busy and changes no other; the incident is created
      assigned to it, with the ETA of its distance, and the reply carries its
      contact details. */
  lemma {:induction false} SosReservesChosen(s: State, request: SosRequest, dist: Metric, clock: string, freshId: Id)
    requires s.Valid() && WellFormed(request)
    requires exists k :: k in s.ambulances.entries && s.ambulances.entries[k].status == Available
    ensures var lat, lon := request.latitude.value, request.longitude.value;
      var out := Sos(s, request, dist, clock, freshId);
      var chosen := out.reply.body.incident.assignedAmbulanceId;
      && out.reply.Success?
      && chosen.Some? && chosen.value in s.ambulances.entries
      && var a := s.ambulances.entries[chosen.value];
      && a.status == Available
      && out.state.ambulances.keys == s.ambulances.keys
      && out.state.ambulances.Get(a.id) == Some(a.(status := Busy))
      && (forall k :: k != a.id ==> out.state.ambulances.Get(k) == s.ambulances.Get(k))
      && out.reply.body.incident == SosIncident(freshId, request.patientId.value, lat, lon, Assigned, Some(a.id),
                                                clock, None, Some(EtaText(EtaMinutes(DistanceTo(a, lat, lon, dist)))), None)
      && out.reply.body.assignedAmbulance == Some(ContactOf(a))
      && out.state.incidents == s.incidents.Set(freshId, out.reply.body.incident)
  {
    var lat, lon := request.latitude.value, request.longitude.value;
    var fleet := s.ambulances.Values();
    SomeAvailable(s);
    RankedCandidates(fleet, lat, lon, dist);
    var nearest := NearestThree(Ranked(fleet, lat, lon, dist));
    var a := nearest[0].ambulance;
    assert nearest[0] == Ranked(fleet, lat, lon, dist)[0];
    assert a in fleet && a.status == Available;
    KeyedValues(s.ambulances, AmbulanceId);
    assert s.ambulances.entries[a.id] == a;
    assert nearest[0] == Measure(a, lat, lon, dist);
  }

  /** The SOS reply lists min(3, #available) ambulances, all available in
      the store, by ascending distance, the first shown as assigned and the
      rest with their stored status, `available`. */
  lemma {:induction false} SosNearestList(s: State, request: SosRequest, dist: Metric, clock: string, freshId: Id)
    requires s.Valid() && WellFormed(request)
    ensures var n := |AvailableOf(s.ambulances.Values())|;
      var out := Sos(s, request, dist, clock, freshId);
      var view := out.reply.body.nearestAmbulances;
      && out.reply.Success?
      && |view| == (if n < 3 then n else 3)
      && (forall i :: 0 <= i < |view| ==>
            s.ambulances.Get(view[i].id).Some? && s.ambulances.Get(view[i].id).value.status == Available)
      && (forall i, j :: 0 <= i < j < |view| ==> view[i].id != view[j].id)
      && (forall i :: 0 <= i < |view| ==>
            && view[i].id in s.ambulances.entries
            && view[i].distance == DistanceTo(s.ambulances.entries[view[i].id], request.latitude.value, request.longitude.value, dist)
            && view[i].eta == EtaMinutes(view[i].distance))
      && (forall i, j :: 0 <= i < j < |view| ==> view[i].distance <= view[j].distance)
      && (forall k, i :: k in s.ambulances.entries && s.ambulances.entries[k].status == Available
                         && !Listed(view, k) && 0 <= i < |view| ==>
            view[i].distance <= DistanceTo(s.ambulances.entries[k], request.latitude.value, request.longitude.value, dist))
      && (|view| > 0 ==> view[0].status == ShownAssigned)
      && (forall i :: 1 <= i < |view| ==> view[i].status == ShownStored(Available))
  {
    var lat, lon := request.latitude.value, request.longitude.value;
    var fleet := s.ambulances.Values();
    KeyedValues(s.ambulances, AmbulanceId);
    assert DistinctBy(fleet, AmbulanceId);
    NearestListShape(fleet, lat, lon, dist);
    var nearest := NearestThree(Ranked(fleet, lat, lon, dist));
    var view := Sos(s, request, dist, clock, freshId).reply.body.nearestAmbulances;
    forall i | 0 <= i < |view|
      ensures s.ambulances.Get(view[i].id) == Some(nearest[i].ambulance)
      ensures view[i].id in s.ambulances.entries && s.ambulances.entries[view[i].id] == nearest[i].ambulance
    {
      assert view[i].id == nearest[i].ambulance.id;
      assert nearest[i].ambulance in fleet;
    }
    forall k | k in s.ambulances.entries && s.ambulances.entries[k].status == Available
      ensures s.ambulances.entries[k] in AvailableOf(fleet) && s.ambulances.entries[k].id == k
    {
      StoredAvailable(s, k);
    }
  }

  /** A stored available ambulance is among the available ones of the fleet,
      under its own id. */
  lemma {:induction false} StoredAvailable(s: State, k: Id)
    requires s.Valid() && k in s.ambulances.entries && s.ambulances.entries[k].status == Available
    ensures s.ambulances.entries[k] in AvailableOf(s.ambulances.Values()) && s.ambulances.entries[k].id == k
  {
    var p :| 0 <= p < |s.ambulances.keys| && s.ambulances.keys[p] == k;
    assert s.ambulances.Values()[p] == s.ambulances.entries[k];
  }

  /** An SOS under an id the incident table does not yet hold adds exactly
      that incident, last in iteration order. */
  lemma {:induction false} SosAppendsIncident(s: State, request: SosRequest, dist: Metric, clock: string, freshId: Id)
    requires s.Valid() && WellFormed(request) && freshId !in s.incidents.entries
    ensures var out := Sos(s, request, dist, clock, freshId);
      && out.reply.Success?
      && out.state.incidents.Values() == s.incidents.Values() + [out.reply.body.incident]
      && out.reply.body.incident.id == freshId
  {
    var out := Sos(s, request, dist, clock, freshId);
    CreateFresh(s.incidents, freshId, out.reply.body.incident);
  }

  // ---------------------------------------------------------------------------
  // Manual assignment

  datatype AssignBody = AssignBody(incident: SosIncident, ambulance: Contact, eta: string)

  const AmbulanceIdRequired: string := "Ambulance ID is required"
  const IncidentNotFound: string := "Incident not found"
  const AmbulanceNotFound: string := "Ambulance not found"

  /** The request's `ambulanceId` is usable when present and not empty. */
  predicate Given(ambulanceId: Option<string>) {
    ambulanceId.Some? && ambulanceId.value != ""
  }

  /** The tables after a successful assignment of ambulance `aid` to incident
      `incidentId`: reserve the target, then release the incident's previous
      ambulance when it is a different one, then merge the new assignment
      into the incident. */
  function AssignedState(s: State, incidentId: Id, aid: Id, eta: string): (t: State)
    requires s.Valid() && incidentId in s.incidents.entries
    ensures t.Valid()
  {
    var reserved := AmbulancesAfterUpdate(s.ambulances, aid, StatusPatch(Busy));
    var released := ReleasePrevious(reserved, s.incidents.entries[incidentId].assignedAmbulanceId, aid);
    State(released, IncidentsAfterUpdate(s.incidents, incidentId, AssignPatch(aid, eta)))
  }

  /** The release step of an assignment: the incident's previous ambulance
      becomes available when there is one and it is not the new one. */
  function ReleasePrevious(t: Table<Ambulance>, previous: Option<Id>, aid: Id): (u: Table<Ambulance>)
    requires t.Valid()
    ensures u.Valid() && u.keys == t.keys
    ensures KeyedBy(t, AmbulanceId) ==> KeyedBy(u, AmbulanceId)
    ensures previous.Some? && previous.value != aid && previous.value in t.entries ==>
      u.Get(previous.value) == Some(t.entries[previous.value].(status := Available))
    ensures forall k :: previous != Some(k) || k == aid ==> u.Get(k) == t.Get(k)
  {
    if previous.Some? && previous.value != aid then AmbulancesAfterUpdate(t, previous.value, StatusPatch(Available))
    else t
  }

  /** `POST /api/incidents/:id/assign` */
  function Assign(s: State, incidentId: Id, ambulanceId: Option<string>, dist: Metric): (out: Outcome<AssignBody>)
    requires s.Valid()
    ensures out.state.Valid()
  {
    if !Given(ambulanceId) then Outcome(s, Fail(400, AmbulanceIdRequired))
    else
      match s.incidents.Get(incidentId)
      case None => Outcome(s, Fail(404, IncidentNotFound))
      case Some(incident) =>
        var aid: Id := ambulanceId.value;
        match s.ambulances.Get(aid)
        case None => Outcome(s, Fail(404, AmbulanceNotFound))
        case Some(ambulance) =>
          var eta := EtaText(EtaMinutes(DistanceTo(ambulance, incident.latitude, incident.longitude, dist)));
          var t := AssignedState(s, incidentId, aid, eta);
          Outcome(t, Success(200, AssignBody(t.incidents.entries[incidentId], ContactOf(ambulance), eta)))
  }

  /** The checks run in order (ambulance id given, incident known, ambulance
      known), and a failed check answers before anything changes. */
  lemma {:induction false} AssignChecksFirst(s: State, incidentId: Id, ambulanceId: Option<string>, dist: Metric)
    requires s.Valid()
    ensures var out := Assign(s, incidentId, ambulanceId, dist);
      && (!Given(ambulanceId) ==> out == Outcome(s, Fail(400, AmbulanceIdRequired)))
      && (Given(ambulanceId) && incidentId !in s.incidents.entries ==>
            out == Outcome(s, Fail(404, IncidentNotFound)))
      && (Given(ambulanceId) && incidentId in s.incidents.entries && ambulanceId.value !in s.ambulances.entries ==>
            out == Outcome(s, Fail(404, AmbulanceNotFound)))
      && (out.reply.Fail? ==> out.state == s)
  {
  }

  /** A successful assignment makes the target busy, makes the incident's
      previous ambulance available when it is a different one, changes no
      other ambulance, and gives the incident the new ambulance, status
      `assigned` and the new ETA, keeping all its other fields. */
  lemma {:induction false} AssignSuccess(s: State, incidentId: Id, aid: Id, dist: Metric)
    requires s.Valid()
    requires incidentId in s.incidents.entries && aid in s.ambulances.entries
    ensures var incident := s.incidents.entries[incidentId];
      var ambulance := s.ambulances.entries[aid];
      var previous := incident.assignedAmbulanceId;
      var eta := EtaText(EtaMinutes(DistanceTo(ambulance, incident.latitude, incident.longitude, dist)));
      var out := Assign(s, incidentId, Some(aid), dist);
      var after := out.state;
      && out.reply == Success(200, AssignBody(after.incidents.entries[incidentId], ContactOf(ambulance), eta))
      && after.ambulances.keys == s.ambulances.keys
      && after.ambulances.Get(aid) == Some(ambulance.(status := Busy))
      && (previous.Some? && previous.value != aid && previous.value in s.ambulances.entries ==>
            after.ambulances.Get(previous.value) == Some(s.ambulances.entries[previous.value].(status := Available)))
      && (forall k :: k != aid && previous != Some(k) ==> after.ambulances.Get(k) == s.ambulances.Get(k))
      && after.incidents.keys == s.incidents.keys
      && after.incidents.Get(incidentId) ==
           Some(incident.(assignedAmbulanceId := Some(aid), status := Assigned, eta := Some(eta)))
      && (forall k :: k != incidentId ==> after.incidents.Get(k) == s.incidents.Get(k))
  {
  }

  /** Re-assigning the ambulance an incident already has releases nothing:
      only that ambulance and that incident are touched. */
  lemma {:induction false} ReassignSameReleasesNothing(s: State, incidentId: Id, aid: Id, dist: Metric)
    requires s.Valid()
    requires incidentId in s.incidents.entries && aid in s.ambulances.entries
    requires s.incidents.entries[incidentId].assignedAmbulanceId == Some(aid)
    ensures var after := Assign(s, incidentId, Some(aid), dist).state;
      forall k :: k != aid ==> after.ambulances.Get(k) == s.ambulances.Get(k)
  {
    AssignSuccess(s, incidentId, aid, dist);
  }

  /** The assignment does not look at the ambulance's status: an ambulance
      already serving another incident is assigned all the same, and both
      incidents then name it. */
  lemma {:induction false} AssignIgnoresAvailability(s: State, incidentId: Id, other: Id, aid: Id, dist: Metric)
    requires s.Valid()
    requires incidentId in s.incidents.entries && other in s.incidents.entries && other != incidentId
    requires aid in s.ambulances.entries
    requires s.incidents.entries[other].assignedAmbulanceId == Some(aid)
    ensures var out := Assign(s, incidentId, Some(aid), dist);
      && out.reply.Success?
      && out.state.incidents.Get(incidentId).Some?
      && out.state.incidents.Get(incidentId).value.assignedAmbulanceId == Some(aid)
      && out.state.incidents.Get(other) == s.incidents.Get(other)
      && out.state.ambulances.Get(aid).Some? && out.state.ambulances.Get(aid).value.status == Busy
  {
    AssignSuccess(s, incidentId, aid, dist);
  }

  /** Assigning the same ambulance to the same incident twice in a row gives
      the state of assigning it once. */
  lemma {:induction false} AssignIdempotent(s: State, incidentId: Id, aid: Id, dist: Metric)
    requires s.Valid()
    requires incidentId in s.incidents.entries && aid in s.ambulances.entries
    ensures var once := Assign(s, incidentId, Some(aid), dist).state;
      Assign(once, incidentId, Some(aid), dist).state == once
  {
    var incident := s.incidents.entries[incidentId];
    var ambulance := s.ambulances.entries[aid];
    var eta := EtaText(EtaMinutes(DistanceTo(ambulance, incident.latitude, incident.longitude, dist)));
    var once := Assign(s, incidentId, Some(aid), dist).state;
    assert once == AssignedState(s, incidentId, aid, eta);
    AssignSuccess(s, incidentId, aid, dist);
    var incident' := once.incidents.entries[incidentId];
    var ambulance' := once.ambulances.entries[aid];
    assert ambulance' == ambulance.(status := Busy);
    assert incident'.assignedAmbulanceId == Some(aid);
    assert incident'.latitude == incident.latitude && incident'.longitude == incident.longitude;
    assert ambulance'.latitude == ambulance.latitude && ambulance'.longitude == ambulance.longitude;
    var twice := AssignedState(once, incidentId, aid, eta);
    assert Assign(once, incidentId, Some(aid), dist).state == twice;
    AmbulanceMergeIdempotent(ambulance', StatusPatch(Busy));
    SetSame(once.ambulances, aid);
    assert twice.ambulances == once.ambulances;
    IncidentMergeIdempotent(incident, AssignPatch(aid, eta));
    SetSame(once.incidents, incidentId);
    assert twice.incidents == once.incidents;
  }

  // ---------------------------------------------------------------------------
  // Resolution

  /** `POST /api/incidents/:id/resolve`; `clock` is the display time of the
      request. */
  function Resolve(s: State, incidentId: Id, clock: string): (out: Outcome<SosIncident>)
    requires s.Valid()
    ensures out.state.Valid()
  {
    match s.incidents.Get(incidentId)
    case None => Outcome(s, Fail(404, IncidentNotFound))
    case Some(incident) =>
      var ambulances :=
        match incident.assignedAmbulanceId
        case Some(aid) => AmbulancesAfterUpdate(s.ambulances, aid, StatusPatch(Available))
        case None => s.ambulances;
      var incidents := IncidentsAfterUpdate(s.incidents, incidentId, ResolvePatch(clock));
      Outcome(State(ambulances, incidents), Success(200, incidents.entries[incidentId]))
  }

  /** Resolving an unknown incident answers 404 and changes nothing;
      otherwise the incident's ambulance, if any, becomes available, no other
      ambulance changes, and the incident becomes resolved at `clock`,
      keeping its ambulance and every other field. */
  lemma {:induction false} ResolveSpec(s: State, incidentId: Id, clock: string)
    requires s.Valid()
    ensures var out := Resolve(s, incidentId, clock);
      && (incidentId !in s.incidents.entries ==> out == Outcome(s, Fail(404, IncidentNotFound)))
      && (incidentId in s.incidents.entries ==>
            var incident := s.incidents.entries[incidentId];
            var resolved := incident.(status := Resolved, resolvedAt := Some(clock));
            && out.reply == Success(200, resolved)
            && out.state.incidents.keys == s.incidents.keys
            && out.state.incidents.Get(incidentId) == Some(resolved)
            && (forall k :: k != incidentId ==> out.state.incidents.Get(k) == s.incidents.Get(k))
            && out.state.ambulances.keys == s.ambulances.keys
            && (forall k :: incident.assignedAmbulanceId != Some(k) ==>
                  out.state.ambulances.Get(k) == s.ambulances.Get(k))
            && (forall k :: incident.assignedAmbulanceId == Some(k) && k in s.ambulances.entries ==>
                  out.state.ambulances.Get(k) == Some(s.ambulances.entries[k].(status := Available))))
  {
  }

  /** Resolving twice with the same clock gives the state of resolving once. */
  lemma {:induction false} ResolveIdempotent(s: State, incidentId: Id, clock: string)
    requires s.Valid()
    ensures var once := Resolve(s, incidentId, clock).state;
      Resolve(once, incidentId, clock).state == once
  {
    var once := Resolve(s, incidentId, clock).state;
    if incidentId in s.incidents.entries {
      var incident := s.incidents.entries[incidentId];
      IncidentMergeIdempotent(incident, ResolvePatch(clock));
      SetSame(once.incidents, incidentId);
      match incident.assignedAmbulanceId
      case Some(aid) =>
        if aid in s.ambulances.entries {
          AmbulanceMergeIdempotent(s.ambulances.entries[aid], StatusPatch(Available));
          SetSame(once.ambulances, aid);
        }
      case None =>
    }
  }
}
