/**
 * The in-memory store (server/storage.ts): a class holding one insertion-
 * ordered table per kind of record. Lookups are functions of the tables;
 * creation, shallow-merge updates, OTP verification and the position
 * simulation change the tables in place. Each change is specified by a pure
 * function of the old table, stated here once and reused by the handlers'
 * specification.
 */
module Storage {
  import opened Schema
  import opened Tables
  import opened Sorting
  import opened Text

  // ---------------------------------------------------------------------------
  // Changes to one table, as functions of the table before the change

  /** `updateAmbulance(id, updates)` on the ambulance table. */
  function AmbulancesAfterUpdate(t: Table<Ambulance>, id: Id, updates: AmbulancePatch): (u: Table<Ambulance>)
    requires t.Valid()
    ensures u.Valid() && u.keys == t.keys
    ensures id !in t.entries ==> u == t
    ensures id in t.entries ==> u.Get(id) == Some(t.entries[id].Merge(updates))
    ensures forall k :: k != id ==> u.Get(k) == t.Get(k)
    ensures KeyedBy(t, AmbulanceId) ==> KeyedBy(u, AmbulanceId)
  {
    if id in t.entries then t.Set(id, t.entries[id].Merge(updates)) else t
  }

  /** `updateIncident(id, updates)` on the incident table. */
  function IncidentsAfterUpdate(t: Table<SosIncident>, id: Id, updates: IncidentPatch): (u: Table<SosIncident>)
    requires t.Valid()
    ensures u.Valid() && u.keys == t.keys
    ensures id !in t.entries ==> u == t
    ensures id in t.entries ==> u.Get(id) == Some(t.entries[id].Merge(updates))
    ensures forall k :: k != id ==> u.Get(k) == t.Get(k)
    ensures KeyedBy(t, IncidentId) ==> KeyedBy(u, IncidentId)
  {
    if id in t.entries then t.Set(id, t.entries[id].Merge(updates)) else t
  }

  /** `verifyOtpSession(id)` on the session table. */
  function SessionsAfterVerify(t: Table<OtpSession>, id: Id): (u: Table<OtpSession>)
    requires t.Valid()
    ensures u.Valid() && u.keys == t.keys
    ensures id !in t.entries ==> u == t
    ensures id in t.entries ==> u.Get(id) == Some(t.entries[id].(verified := true))
    ensures forall k :: k != id ==> u.Get(k) == t.Get(k)
    ensures KeyedBy(t, SessionId) ==> KeyedBy(u, SessionId)
  {
    if id in t.entries then t.Set(id, t.entries[id].(verified := true)) else t
  }

  /** Verifying a session a second time changes nothing more. */
  lemma {:induction false} VerifyIdempotent(t: Table<OtpSession>, id: Id)
    requires t.Valid()
    ensures SessionsAfterVerify(SessionsAfterVerify(t, id), id) == SessionsAfterVerify(t, id)
  {
    if id in t.entries {
      var s := t.entries[id].(verified := true);
      SetSet(t, id, s, s);
    }
  }

  /** Creating a record under a fresh id grows the table by that one entry,
      appended last in iteration order, and leaves every other entry alone. */
  lemma {:induction false} CreateFresh<V>(t: Table<V>, id: Id, v: V)
    requires t.Valid() && id !in t.entries
    ensures |t.Set(id, v).keys| == |t.keys| + 1
    ensures t.Set(id, v).Values() == t.Values() + [v]
    ensures forall k :: k in t.entries ==> k in t.Set(id, v).entries && t.Set(id, v).entries[k] == t.entries[k]
  {
    var u := t.Set(id, v);
    assert u.keys == t.keys + [id];
    forall i | 0 <= i < |t.keys| ensures u.Values()[i] == t.Values()[i] {
      assert t.keys[i] != id;
    }
  }

  // ---------------------------------------------------------------------------
  // Queries

  /** The patient's ABHA id equals the query ignoring case: same length,
      and the same letter at every place once both are lower-cased. */
  function AbhaMatches(p: Patient, abhaId: string): (m: bool)
    ensures m <==> |p.abhaId| == |abhaId|
                   && forall i :: 0 <= i < |abhaId| ==> LowerChar(p.abhaId[i]) == LowerChar(abhaId[i])
    ensures p.abhaId == abhaId ==> m
  {
    var a, b := Lower(p.abhaId), Lower(abhaId);
    assert |a| == |b| && (forall i :: 0 <= i < |b| ==> a[i] == b[i]) ==> a == b;
    a == b
  }

  /** Position of the first patient whose ABHA id equals the query ignoring
      case, or |patients| when there is none. */
  function FirstAbhaMatch(patients: seq<Patient>, abhaId: string): (i: nat)
    ensures i <= |patients|
    ensures i < |patients| ==> AbhaMatches(patients[i], abhaId)
    ensures forall j :: 0 <= j < i ==> !AbhaMatches(patients[j], abhaId)
  {
    if patients == [] then 0
    else if AbhaMatches(patients[0], abhaId) then 0
    else 1 + FirstAbhaMatch(patients[1..], abhaId)
  }

  /** `getPatientByAbhaId`: the first patient, in insertion order, whose ABHA
      id matches ignoring case; none when no patient matches. */
  function FindByAbhaId(patients: seq<Patient>, abhaId: string): (r: Option<Patient>)
    ensures r == None <==> forall j :: 0 <= j < |patients| ==> !AbhaMatches(patients[j], abhaId)
    ensures r.Some? ==> exists i :: 0 <= i < |patients| && patients[i] == r.value
                                   && AbhaMatches(patients[i], abhaId)
                                   && forall j :: 0 <= j < i ==> !AbhaMatches(patients[j], abhaId)
  {
    var i := FirstAbhaMatch(patients, abhaId);
    if i < |patients| then Some(patients[i]) else None
  }

  /** The records of one patient, in store order. */
  function RecordsOf(records: seq<MedicalRecord>, patientId: string): (r: seq<MedicalRecord>)
    ensures forall i :: 0 <= i < |r| ==> r[i].patientId == patientId
  {
    if records == [] then []
    else (if records[0].patientId == patientId then [records[0]] else []) + RecordsOf(records[1..], patientId)
  }

  /** Each of the patient's records is kept as often as it occurs; no other
      record is kept. */
  lemma {:induction false} RecordsOfCount(records: seq<MedicalRecord>, patientId: string)
    ensures forall x :: multiset(RecordsOf(records, patientId))[x]
                        == if x.patientId == patientId then multiset(records)[x] else 0
  {
    if records != [] {
      RecordsOfCount(records[1..], patientId);
      assert records == [records[0]] + records[1..];
    }
  }

  /** Sort key for newest first: the record date as a timestamp, negated. The
      parse of the date text is a parameter. */
  function NewestFirst(timeOf: string -> int): MedicalRecord -> real {
    (r: MedicalRecord) => -(timeOf(r.date) as real)
  }

  /** `getMedicalRecords(patientId)`. */
  function MedicalRecordsOf(records: seq<MedicalRecord>, patientId: string, timeOf: string -> int): (r: seq<MedicalRecord>)
    ensures multiset(r) == multiset(RecordsOf(records, patientId))
    ensures forall i :: 0 <= i < |r| ==> r[i].patientId == patientId
    ensures forall i, j :: 0 <= i < j < |r| ==> timeOf(r[i].date) >= timeOf(r[j].date)
  {
    var mine := RecordsOf(records, patientId);
    var key := NewestFirst(timeOf);
    var sorted := SortBy(mine, key);
    forall i | 0 <= i < |sorted| ensures sorted[i].patientId == patientId {
      assert sorted[i] in multiset(mine);
    }
    forall i, j | 0 <= i < j < |sorted| ensures timeOf(sorted[i].date) >= timeOf(sorted[j].date) {
      assert key(sorted[i]) <= key(sorted[j]);
    }
    sorted
  }

  /** The records returned are exactly the patient's records, each as often
      as it is stored, newest first. */
  lemma {:induction false} MedicalRecordsSpec(records: seq<MedicalRecord>, patientId: string, timeOf: string -> int)
    ensures var r := MedicalRecordsOf(records, patientId, timeOf);
      && (forall x :: multiset(r)[x] == if x.patientId == patientId then multiset(records)[x] else 0)
      && (forall i, j :: 0 <= i < j < |r| ==> timeOf(r[i].date) >= timeOf(r[j].date))
  {
    RecordsOfCount(records, patientId);
  }

  /** Records of the same time keep their store order. */
  lemma {:induction false} MedicalRecordsStable(records: seq<MedicalRecord>, patientId: string, timeOf: string -> int, time: int)
    ensures var key := NewestFirst(timeOf);
      WithKey(MedicalRecordsOf(records, patientId, timeOf), key, -(time as real))
        == WithKey(RecordsOf(records, patientId), key, -(time as real))
  {
    var key := NewestFirst(timeOf);
    var mine := RecordsOf(records, patientId);
    SortByStable(mine, key, -(time as real));
    assert MedicalRecordsOf(records, patientId, timeOf) == SortBy(mine, key);
  }

  // ---------------------------------------------------------------------------
  // One tick of the ambulance simulation

  const LatMin: real := 26.82
  const LatMax: real := 26.98
  const LonMin: real := 75.72
  const LonMax: real := 75.88

  function Min(a: real, b: real): real { if a <= b then a else b }
  function Max(a: real, b: real): real { if a >= b then a else b }

  /** x limited to the interval [lo, hi] (for lo <= hi). */
  function Clamp(lo: real, hi: real, x: real): (r: real)
    requires lo <= hi
    ensures lo <= r <= hi
    ensures lo <= x <= hi ==> r == x
    ensures x < lo ==> r == lo
    ensures hi < x ==> r == hi
  {
    Max(lo, Min(hi, x))
  }

  /** A draw of `Math.random()` turned into a position offset; a draw from
      [0, 1) gives an offset of at most 0.001 degrees, and a larger draw a
      larger offset. */
  function Jitter(draw: real): (offset: real)
    ensures 0.0 <= draw < 1.0 ==> -0.001 <= offset < 0.001
    ensures draw < 0.5 <==> offset < 0.0
  {
    (draw - 0.5) * 0.002
  }

  /** Clamping into a box never moves a point that starts inside the box
      farther than the offset it was given. */
  lemma {:induction false} ClampStep(lo: real, hi: real, x: real, delta: real)
    requires lo <= x <= hi
    ensures -(if delta < 0.0 then -delta else delta) <= Clamp(lo, hi, x + delta) - x
    ensures Clamp(lo, hi, x + delta) - x <= (if delta < 0.0 then -delta else delta)
  {
  }

  /** What one tick does to one ambulance, given its two draws. */
  function Moved(a: Ambulance, draw: (real, real)): (b: Ambulance)
    ensures b.status == a.status && b.id == a.id
    ensures a.status != Available ==> b == a
    ensures a.status == Available ==>
      && LatMin <= b.latitude <= LatMax && LonMin <= b.longitude <= LonMax
      && b == a.(latitude := b.latitude, longitude := b.longitude)
  {
    if a.status == Available then
      a.(latitude := Clamp(LatMin, LatMax, a.latitude + Jitter(draw.0)),
         longitude := Clamp(LonMin, LonMax, a.longitude + Jitter(draw.1)))
    else a
  }

  /** The ambulance table after one tick; `draws(id)` are the two draws the
      tick makes for ambulance `id`. */
  function TickFleet(t: Table<Ambulance>, draws: Id -> (real, real)): (u: Table<Ambulance>)
    requires t.Valid()
    ensures u.Valid() && u.keys == t.keys && u.entries.Keys == t.entries.Keys
    ensures forall k :: k in t.entries ==> u.entries[k] == Moved(t.entries[k], draws(k))
  {
    Table(t.keys, map k | k in t.entries :: Moved(t.entries[k], draws(k)))
  }

  /** The table partway through a tick: the ambulances under the first n
      keys have been moved, the others not yet. */
  function TickedUpTo(t: Table<Ambulance>, draws: Id -> (real, real), n: nat): (u: Table<Ambulance>)
    requires t.Valid() && n <= |t.keys|
    ensures u.Valid() && u.keys == t.keys
  {
    Table(t.keys, map k | k in t.entries :: if k in t.keys[..n] then Moved(t.entries[k], draws(k)) else t.entries[k])
  }

  /** One more step of the tick moves the ambulance under the next key,
      which has not been moved yet; when that ambulance is not available the
      step changes nothing. */
  lemma {:induction false} TickedUpToStep(t: Table<Ambulance>, draws: Id -> (real, real), n: nat)
    requires t.Valid() && n < |t.keys|
    ensures var id := t.keys[n]; var u := TickedUpTo(t, draws, n);
      && id in u.entries && u.entries[id] == t.entries[id]
      && TickedUpTo(t, draws, n + 1) == u.Set(id, Moved(t.entries[id], draws(id)))
      && (t.entries[id].status != Available ==> TickedUpTo(t, draws, n + 1) == u)
  {
    var id := t.keys[n];
    assert t.keys[..n + 1] == t.keys[..n] + [id];
    assert id !in t.keys[..n] by {
      forall j | 0 <= j < n ensures t.keys[..n][j] != id {
        assert t.keys[j] != t.keys[n];
      }
    }
    var u := TickedUpTo(t, draws, n);
    var v := TickedUpTo(t, draws, n + 1);
    assert v.entries == u.entries[id := Moved(t.entries[id], draws(id))];
    if t.entries[id].status != Available {
      SetSame(u, id);
    }
  }

  /** After the last key, the tick is complete. */
  lemma {:induction false} TickedUpToAll(t: Table<Ambulance>, draws: Id -> (real, real))
    requires t.Valid()
    ensures TickedUpTo(t, draws, |t.keys|) == TickFleet(t, draws)
  {
    assert t.keys[..|t.keys|] == t.keys;
  }

  /** A tick keeps every ambulance under its own id. */
  lemma {:induction false} KeyedTick(t: Table<Ambulance>, draws: Id -> (real, real))
    requires t.Valid() && KeyedBy(t, AmbulanceId)
    ensures KeyedBy(TickFleet(t, draws), AmbulanceId)
  {
  }

  /** A tick changes no status, leaves every ambulance that is not available
      where it was, and leaves every available one inside the service area;
      one that was already inside moves by at most 0.001 degrees on each
      axis. */
  lemma {:induction false} TickSpec(t: Table<Ambulance>, draws: Id -> (real, real), id: Id)
    requires t.Valid() && id in t.entries
    requires 0.0 <= draws(id).0 < 1.0 && 0.0 <= draws(id).1 < 1.0
    ensures var a := t.entries[id]; var b := TickFleet(t, draws).entries[id];
      && b.status == a.status && b.id == a.id
      && (a.status != Available ==> b == a)
      && (a.status == Available ==>
            && LatMin <= b.latitude <= LatMax && LonMin <= b.longitude <= LonMax
            && b == a.(latitude := b.latitude, longitude := b.longitude))
      && (a.status == Available && LatMin <= a.latitude <= LatMax ==>
            -0.001 <= b.latitude - a.latitude <= 0.001)
      && (a.status == Available && LonMin <= a.longitude <= LonMax ==>
            -0.001 <= b.longitude - a.longitude <= 0.001)
  {
    var a := t.entries[id];
    if a.status == Available && LatMin <= a.latitude <= LatMax {
      ClampStep(LatMin, LatMax, a.latitude, Jitter(draws(id).0));
    }
    if a.status == Available && LonMin <= a.longitude <= LonMax {
      ClampStep(LonMin, LonMax, a.longitude, Jitter(draws(id).1));
    }
  }

  // ---------------------------------------------------------------------------
  // The store

  class MemStorage {
    var ambulances: Table<Ambulance>
    var incidents: Table<SosIncident>
    var otpSessions: Table<OtpSession>
    var patients: Table<Patient>
    var medicalRecords: Table<MedicalRecord>

    ghost predicate Valid()
      reads this
    {
      && ambulances.Valid() && KeyedBy(ambulances, AmbulanceId)
      && incidents.Valid() && KeyedBy(incidents, IncidentId)
      && otpSessions.Valid() && KeyedBy(otpSessions, SessionId)
      && patients.Valid()
      && medicalRecords.Valid()
    }

    /** A store holding the given seed data, with no incidents and no
        sessions. */
    constructor (patients: Table<Patient>, medicalRecords: Table<MedicalRecord>, ambulances: Table<Ambulance>)
      requires patients.Valid() && medicalRecords.Valid()
      requires ambulances.Valid() && KeyedBy(ambulances, AmbulanceId)
      ensures Valid()
      ensures this.patients == patients && this.medicalRecords == medicalRecords
      ensures this.ambulances == ambulances
      ensures this.incidents == Empty() && this.otpSessions == Empty()
    {
      this.patients := patients;
      this.medicalRecords := medicalRecords;
      this.ambulances := ambulances;
      this.incidents := Empty();
      this.otpSessions := Empty();
    }

    /** `getAmbulances()`: the fleet in insertion order. */
    function GetAmbulances(): (fleet: seq<Ambulance>)
      reads this
      requires Valid()
      ensures |fleet| == |ambulances.keys|
      ensures forall i :: 0 <= i < |fleet| ==> fleet[i] == ambulances.entries[ambulances.keys[i]]
      ensures DistinctBy(fleet, AmbulanceId)
      ensures forall a :: a in fleet ==> ambulances.Get(a.id) == Some(a)
    {
      KeyedValues(ambulances, AmbulanceId);
      ambulances.Values()
    }

    /** `getAmbulance(id)` */
    function GetAmbulance(id: Id): (r: Option<Ambulance>)
      reads this
      requires Valid()
      ensures r.Some? <==> id in ambulances.entries
      ensures r.Some? ==> r.value == ambulances.entries[id] && r.value.id == id
    {
      ambulances.Get(id)
    }

    /** `updateAmbulance(id, updates)` */
    method UpdateAmbulance(id: Id, updates: AmbulancePatch) returns (r: Option<Ambulance>)
      requires Valid()
      modifies this`ambulances
      ensures Valid()
      ensures ambulances == AmbulancesAfterUpdate(old(ambulances), id, updates)
      ensures id !in old(ambulances.entries) ==> r == None && ambulances == old(ambulances)
      ensures r == ambulances.Get(id)
    {
      match ambulances.Get(id)
      case None =>
        r := None;
      case Some(ambulance) =>
        var updated := ambulance.Merge(updates);
        ambulances := ambulances.Set(id, updated);
        r := Some(updated);
    }

    /** `createAmbulance(ambulance)`, with `freshId` standing for the result
        of `randomUUID()`. */
    method CreateAmbulance(freshId: Id, ambulance: Ambulance) returns (r: Ambulance)
      requires Valid()
      modifies this`ambulances
      ensures Valid()
      ensures r == ambulance.(id := freshId)
      ensures ambulances == old(ambulances).Set(freshId, r)
    {
      r := ambulance.(id := freshId);
      ambulances := ambulances.Set(freshId, r);
    }

    /** `getIncident(id)` */
    function GetIncident(id: Id): (r: Option<SosIncident>)
      reads this
      requires Valid()
      ensures r.Some? <==> id in incidents.entries
      ensures r.Some? ==> r.value == incidents.entries[id] && r.value.id == id
    {
      incidents.Get(id)
    }

    /** `createIncident(incident)`, with `freshId` standing for the result of
        `randomUUID()`. */
    method CreateIncident(freshId: Id, incident: SosIncident) returns (r: SosIncident)
      requires Valid()
      modifies this`incidents
      ensures Valid()
      ensures r == incident.(id := freshId)
      ensures incidents == old(incidents).Set(freshId, r)
    {
      r := incident.(id := freshId);
      incidents := incidents.Set(freshId, r);
    }

    /** `updateIncident(id, updates)` */
    method UpdateIncident(id: Id, updates: IncidentPatch) returns (r: Option<SosIncident>)
      requires Valid()
      modifies this`incidents
      ensures Valid()
      ensures incidents == IncidentsAfterUpdate(old(incidents), id, updates)
      ensures id !in old(incidents.entries) ==> r == None && incidents == old(incidents)
      ensures r == incidents.Get(id)
    {
      match incidents.Get(id)
      case None =>
        r := None;
      case Some(incident) =>
        var updated := incident.Merge(updates);
        incidents := incidents.Set(id, updated);
        r := Some(updated);
    }

    /** `createOtpSession(session)`, with `freshId` standing for the result of
        `randomUUID()`. */
    method CreateOtpSession(freshId: Id, session: OtpSession) returns (r: OtpSession)
      requires Valid()
      modifies this`otpSessions
      ensures Valid()
      ensures r == session.(id := freshId)
      ensures otpSessions == old(otpSessions).Set(freshId, r)
    {
      r := session.(id := freshId);
      otpSessions := otpSessions.Set(freshId, r);
    }

    /** `getOtpSession(id)` */
    function GetOtpSession(id: Id): (r: Option<OtpSession>)
      reads this
      requires Valid()
      ensures r.Some? <==> id in otpSessions.entries
      ensures r.Some? ==> r.value == otpSessions.entries[id] && r.value.id == id
    {
      otpSessions.Get(id)
    }

    /** `verifyOtpSession(id)` */
    method VerifyOtpSession(id: Id) returns (r: Option<OtpSession>)
      requires Valid()
      modifies this`otpSessions
      ensures Valid()
      ensures otpSessions == SessionsAfterVerify(old(otpSessions), id)
      ensures id !in old(otpSessions.entries) ==> r == None && otpSessions == old(otpSessions)
      ensures r == otpSessions.Get(id)
    {
      match otpSessions.Get(id)
      case None =>
        r := None;
      case Some(session) =>
        var updated := session.(verified := true);
        otpSessions := otpSessions.Set(id, updated);
        r := Some(updated);
    }

    /** `getPatientByAbhaId(abhaId)` */
    function GetPatientByAbhaId(abhaId: string): (r: Option<Patient>)
      reads this
      requires Valid()
      ensures r.None? <==> forall p :: p in patients.Values() ==> !AbhaMatches(p, abhaId)
      ensures r.Some? ==> exists i :: 0 <= i < |patients.keys| && patients.entries[patients.keys[i]] == r.value
                                     && AbhaMatches(r.value, abhaId)
                                     && forall j :: 0 <= j < i ==> !AbhaMatches(patients.entries[patients.keys[j]], abhaId)
    {
      FindByAbhaId(patients.Values(), abhaId)
    }

    /** `getMedicalRecords(patientId)`; `timeOf` is the date parse. */
    function GetMedicalRecords(patientId: string, timeOf: string -> int): (r: seq<MedicalRecord>)
      reads this
      requires Valid()
      ensures forall x :: multiset(r)[x] == if x.patientId == patientId then multiset(medicalRecords.Values())[x] else 0
      ensures forall i :: 0 <= i < |r| ==> r[i].patientId == patientId && r[i] in medicalRecords.Values()
      ensures forall i, j :: 0 <= i < j < |r| ==> timeOf(r[i].date) >= timeOf(r[j].date)
    {
      var records := medicalRecords.Values();
      var r := MedicalRecordsOf(records, patientId, timeOf);
      MedicalRecordsSpec(records, patientId, timeOf);
      assert forall i :: 0 <= i < |r| ==> r[i] in records by {
        forall i | 0 <= i < |r| ensures r[i] in records {
          assert r[i] in multiset(r);
        }
      }
      r
    }

    /** One run of the simulation timer's callback: walks the ambulances in
        insertion order and moves each available one. */
    method SimulationTick(draws: Id -> (real, real))
      requires Valid()
      modifies this`ambulances
      ensures Valid()
      ensures ambulances == TickFleet(old(ambulances), draws)
    {
      ghost var start := ambulances;
      var i := 0;
      while i < |ambulances.keys|
        invariant 0 <= i <= |start.keys|
        invariant ambulances == TickedUpTo(start, draws, i)
      {
        TickedUpToStep(start, draws, i);
        var id := ambulances.keys[i];
        var ambulance := ambulances.entries[id];
        if ambulance.status == Available {
          var newLat := Clamp(LatMin, LatMax, ambulance.latitude + Jitter(draws(id).0));
          var newLon := Clamp(LonMin, LonMax, ambulance.longitude + Jitter(draws(id).1));
          ambulances := ambulances.Set(id, ambulance.(latitude := newLat, longitude := newLon));
        }
        i := i + 1;
      }
      assert i == |start.keys|;
      TickedUpToAll(start, draws);
      KeyedTick(start, draws);
    }
  }
}
