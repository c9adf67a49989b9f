# Ambulance dispatch core of ayusync, modelled in Dafny

ayusync is an emergency-care web service. A patient raises an SOS. The server
reserves the nearest available ambulance and records an incident. Dispatchers
can then re-assign or resolve the incident. Patients log in with a one-time
password (OTP) sent for their ABHA health id. All state lives in an in-memory
store: one insertion-ordered map per kind of record. A timer moves the
available ambulances a little every three seconds.

This project models:

- the store (`server/storage.ts`), as the class `Storage.MemStorage`. Its five
  maps are fields of type `Tables.Table`, a model of a JavaScript `Map` that
  keeps insertion order;
- the SOS, assignment and resolution handlers (`server/routes.ts`), in two
  forms:
  - as pure functions of the tables (`Dispatch.Sos`, `Dispatch.Assign`,
    `Dispatch.Resolve`), about which the lifecycle properties are proved;
  - as methods on the store (`Routes.HandleSos`, `Routes.HandleAssign`,
    `Routes.HandleResolve`). These make the same store calls in the same
    order, and are proved to leave the store exactly as the pure functions
    say;
- the OTP request and verification handlers (`Routes.RequestOtp`,
  `Routes.VerifyOtp`) and the OTP generator (`Otp`);
- the ranking of candidates (`Ranking`): filter the available ambulances,
  measure them, sort them stably by distance, keep three. The sort is a
  stable insertion sort (`Sorting`).

Module layout, one file each:

| file | module | models |
|---|---|---|
| schema.dfy | `Schema` | the record types, partial updates and their merge, the reply shape |
| tables.dfy | `Tables` | insertion-ordered maps |
| text.dfy | `Text` | decimal rendering of integers, ASCII lower-casing |
| sorting.dfy | `Sorting` | the stable sort |
| ranking.dfy | `Ranking` | candidate ranking and ETA |
| storage.dfy | `Storage` | the in-memory store and its simulation tick |
| dispatch.dfy | `Dispatch` | SOS, assignment, resolution as functions |
| otp.dfy | `Otp` | OTP generation and lifetime |
| routes.dfy | `Routes` | the handlers as methods on the store |

Inputs the program draws from its environment become parameters:

- `Math.random()` becomes `draw` (OTP) or `draws` (simulation tick);
- `Date.now()` becomes `now`, in milliseconds;
- the display clock text for `createdAt` and `resolvedAt` becomes `clock`;
- `randomUUID()` becomes `freshId`;
- the date parse of medical records becomes `timeOf`;
- the haversine distance becomes `dist`, of type `Ranking.Metric`: any
  non-negative function of two positions.

Three behaviours of the code are worth knowing when reading the lemmas:

- The assignment handler never checks the target's status, so a busy
  ambulance can be given a second incident
  (`Dispatch.AssignIgnoresAvailability`). Nothing here claims that a busy
  ambulance serves at most one active incident.
- A resolved incident keeps its `assignedAmbulanceId`
  (`Dispatch.ResolveSpec`).
- Ties for the nearest ambulance go to the ambulance earliest in store
  order, because the sort is stable (`Dispatch.SosChoosesFirstClosest`).

## Model

| member | source | states |
|---|---|---|
| Schema.AmbulanceMergeIdempotent | server/storage.ts:382-388 | merging the same patch into an ambulance twice gives the result of merging it once, and the id is kept |
| Schema.IncidentMergeIdempotent | server/storage.ts:413-419 | merging the same patch into an incident twice gives the result of merging it once, and the id is kept |
| Schema.Ambulance.Merge | server/storage.ts:385 | a spread update keeps the id; each field the patch names takes the patch's value, every other field keeps its own |
| Schema.SosIncident.Merge | server/storage.ts:416 | the same for an incident: patched fields take the patch's value, the others and the id are kept |
| Tables.Table.Get | server/storage.ts:378-380 | a lookup finds a value exactly when the key was set, and returns the value stored under it |
| Tables.Table.Set | server/storage.ts:45-52 | after a map set, the key holds the new value, every other key keeps its value, and the key order is kept (key present) or extended at the end (key new) |
| Tables.Table.Values | server/storage.ts:374-376 | the values come out one per key, in insertion order |
| Tables.Empty | server/storage.ts:54-61 | a new map is well-formed and holds nothing |
| Tables.SetSame | server/storage.ts:382-388 | setting a key to the value it already holds changes nothing |
| Tables.SetSet | server/storage.ts:432-438 | setting a key twice is setting it once, to the second value |
| Tables.ValuesAfterSet | server/storage.ts:458-462 | setting an existing key replaces its value in place in the iteration order |
| Tables.KeyedValues | server/storage.ts:374-376 | in a map whose records carry their key as id, the values have distinct ids and each sits under its own id |
| Text.NatToString | server/routes.ts:21-23 | rendering a non-negative integer gives decimal digits without a leading zero |
| Text.ParseNatToString | server/routes.ts:21-23 | reading back the rendering of n gives n |
| Text.NatToStringLength | server/routes.ts:21-23 | a k-digit number renders as k characters |
| Text.Lower | server/storage.ts:325-329 | lower-casing keeps the length, turns each ASCII capital into its small letter (code + 32), and leaves every other character alone |
| Text.LowerIdempotent | server/storage.ts:325-329 | lower-casing twice is lower-casing once |
| Sorting.Insert | server/routes.ts:205 | insertion adds exactly one element and starts with it or with the old head |
| Sorting.SortedCons | server/routes.ts:205 | putting an element no larger than the head in front of a sorted sequence keeps it sorted |
| Sorting.InsertSorted | server/routes.ts:205 | insertion into a sorted sequence keeps it sorted |
| Sorting.SortBy | server/routes.ts:205 | the sort returns a permutation of its input, ascending by key |
| Sorting.FirstMinIndex | server/routes.ts:205-208 | the index of an element with the smallest key, with every earlier element strictly larger |
| Sorting.SortByHead | server/routes.ts:205-208 | the sort's first element is the earliest of those with the smallest key |
| Sorting.WithKeyMembers | server/storage.ts:342-346 | the elements picked for a given key are all of them and only them |
| Sorting.WithKeyInsert | server/routes.ts:205 | insertion puts an element with key k in front of the others with key k |
| Sorting.SortByStable | server/routes.ts:205 | stability: the elements sharing a key come out in their input order |
| Sorting.InsertPos | server/routes.ts:205 | the new element goes after every element with a smaller key and in front of the first one that is not smaller |
| Sorting.InsertSplice | server/routes.ts:205 | insertion is the input with the new element spliced in at InsertPos, nothing else changed |
| Sorting.InsertDistinctBy | server/routes.ts:205 | insertion keeps an injective projection injective |
| Sorting.SortByDistinctBy | server/routes.ts:205 | sorting keeps an injective projection injective |
| Ranking.Ceil | server/routes.ts:201-203 | rounding up: the result is the least integer not below x |
| Ranking.EtaMinutes | server/routes.ts:283 | the ETA is the least whole number of minutes not below three minutes per kilometre |
| Ranking.EtaMonotonic | server/routes.ts:283 | a farther ambulance never gets a shorter ETA |
| Ranking.EtaText | server/routes.ts:212 | the ETA text is the minutes in decimal followed by " min", with no leading zero, and reading the digits back gives the minutes |
| Ranking.AvailableOf | server/routes.ts:196-197 | exactly the ambulances whose status is available are kept |
| Ranking.AvailableOfCount | server/routes.ts:196-197 | each available ambulance is kept as often as the fleet holds it, every other is dropped |
| Ranking.AvailableInFleetOrder | server/routes.ts:196-197 | the filter keeps fleet order: the i-th kept ambulance is the fleet entry at a position that strictly increases with i |
| Ranking.Measure | server/routes.ts:198-203 | a candidate carries its ambulance, its distance to the incident, and the ETA of that distance |
| Ranking.Candidates | server/routes.ts:196-204 | one measured candidate per available ambulance, in fleet order |
| Ranking.NearestThree | server/routes.ts:207 | at most three candidates, the first ones of the ranking |
| Ranking.Ranked | server/routes.ts:196-205 | the ranking is a permutation of the measured available ambulances, in ascending distance |
| Ranking.RankedCandidates | server/routes.ts:195-205 | every entry is an available ambulance of the fleet, measured, and every available ambulance has its entry |
| Ranking.NearestIsFirstClosest | server/routes.ts:195-208 | the head of the ranking is the earliest, in fleet order, of the available ambulances at the smallest distance |
| Ranking.AvailableOfDistinct | server/routes.ts:196-197 | filtering keeps ambulance ids distinct |
| Ranking.RankedDistinct | server/routes.ts:196-205 | the ranking names each ambulance at most once |
| Ranking.NearbyView | server/routes.ts:244-250 | each listed entry carries the candidate's id, vehicle number, distance and ETA, in order; the entry for the assigned ambulance shows as assigned and the others with their stored status |
| Ranking.NearestListShape | server/routes.ts:205-250 | the nearest list has min(3, #available) entries for distinct available ambulances, each with its own distance and the ETA of that distance, ascending by distance, none farther than an available ambulance left off; the first shows as assigned and the rest as available |
| Ranking.NearestCovers | server/routes.ts:205-207 | an available ambulance left off the list is no nearer than any listed one |
| Storage.AmbulancesAfterUpdate | server/storage.ts:382-388 | an unknown id leaves the ambulances unchanged; a known one gets the merged record, and no other entry changes |
| Storage.IncidentsAfterUpdate | server/storage.ts:413-419 | an unknown id leaves the incidents unchanged; a known one gets the merged record, and no other entry changes |
| Storage.SessionsAfterVerify | server/storage.ts:432-438 | an unknown id leaves the sessions unchanged; a known one is marked verified, and no other entry changes |
| Storage.VerifyIdempotent | server/storage.ts:432-438 | verifying a session twice is verifying it once |
| Storage.CreateFresh | server/storage.ts:406-411 | creating under a fresh id grows the table by one entry, appended last, and keeps every other entry |
| Storage.AbhaMatches | server/storage.ts:327 | two ABHA ids match when they have the same length and agree letter by letter once lower-cased; an id matches itself |
| Storage.FirstAbhaMatch | server/storage.ts:325-329 | the position of the first patient whose ABHA id matches ignoring case, or the end |
| Storage.FindByAbhaId | server/storage.ts:325-329 | no result exactly when no patient matches; otherwise the first matching patient in insertion order |
| Storage.RecordsOf | server/storage.ts:342-345 | only records of the given patient are kept |
| Storage.RecordsOfCount | server/storage.ts:342-345 | each record of the patient is kept as often as it occurs, and no other record |
| Storage.MedicalRecordsOf | server/storage.ts:342-346 | the result is a permutation of the patient's records, all of that patient, newest first |
| Storage.MedicalRecordsSpec | server/storage.ts:342-346 | the result is exactly the patient's records, newest first |
| Storage.MedicalRecordsStable | server/storage.ts:342-346 | records with the same date keep their store order |
| Storage.Clamp | server/storage.ts:455-456 | the result lies in [lo, hi]; a value inside is kept, one outside goes to the nearer end |
| Storage.Jitter | server/storage.ts:447-448 | a draw from [0, 1) gives an offset in [-0.001, 0.001) degrees; the offset is negative exactly when the draw is below one half |
| Storage.ClampStep | server/storage.ts:451-456 | clamping a point that starts in the box moves it no farther than its offset |
| Storage.Moved | server/storage.ts:443-463 | a tick keeps id and status; it leaves a non-available ambulance alone, and puts an available one inside the service area with only its position changed |
| Storage.TickFleet | server/storage.ts:442-465 | a tick keeps every key and moves each ambulance as Moved says |
| Storage.TickedUpTo | server/storage.ts:443-464 | partway through a tick the keys and their order are unchanged |
| Storage.TickedUpToStep | server/storage.ts:443-464 | each step of the walk moves the ambulance under the next key, which has not moved yet; a step over an ambulance that is not available changes nothing |
| Storage.TickedUpToAll | server/storage.ts:443-464 | after the last key the walk has done the whole tick |
| Storage.KeyedTick | server/storage.ts:458-462 | a tick keeps every ambulance under its own id |
| Storage.TickSpec | server/storage.ts:442-465 | a tick changes no status and moves only available ambulances; they stay in [26.82, 26.98] x [75.72, 75.88], and one that started inside moves at most 0.001 degrees per axis |
| Storage.MemStorage.constructor | server/storage.ts:54-64 | a new store holds the seed tables, with no incidents and no sessions |
| Storage.MemStorage.GetAmbulances | server/storage.ts:374-376 | the fleet, one record per key in insertion order, ids distinct, each record as stored |
| Storage.MemStorage.GetAmbulance | server/storage.ts:378-380 | a result exactly when the id is stored, and then the stored record, carrying that id |
| Storage.MemStorage.UpdateAmbulance | server/storage.ts:382-388 | the ambulances become AmbulancesAfterUpdate of the old ones; an unknown id returns nothing and changes nothing; otherwise the stored record is returned |
| Storage.MemStorage.CreateAmbulance | server/storage.ts:390-395 | the record is stored under the fresh id, carrying that id, and returned |
| Storage.MemStorage.GetIncident | server/storage.ts:402-404 | a result exactly when the id is stored, and then the stored incident, carrying that id |
| Storage.MemStorage.CreateIncident | server/storage.ts:406-411 | the incident is stored under the fresh id, carrying that id, and returned |
| Storage.MemStorage.UpdateIncident | server/storage.ts:413-419 | the incidents become IncidentsAfterUpdate of the old ones; an unknown id returns nothing and changes nothing; otherwise the stored record is returned |
| Storage.MemStorage.CreateOtpSession | server/storage.ts:421-426 | the session is stored under the fresh id, carrying that id, and returned |
| Storage.MemStorage.GetOtpSession | server/storage.ts:428-430 | a result exactly when the id is stored, and then the stored session, carrying that id |
| Storage.MemStorage.VerifyOtpSession | server/storage.ts:432-438 | the sessions become SessionsAfterVerify of the old ones; an unknown id returns nothing and changes nothing; otherwise the verified session is returned |
| Storage.MemStorage.GetPatientByAbhaId | server/storage.ts:325-329 | nothing exactly when no stored patient matches ignoring case; otherwise the first matching patient in insertion order |
| Storage.MemStorage.GetMedicalRecords | server/storage.ts:342-346 | every stored record of the patient, as often as it is stored, and no other record, newest first |
| Storage.MemStorage.SimulationTick | server/storage.ts:442-465 | the ambulances become TickFleet of the old ones, walking the map in insertion order |
| Dispatch.Sos | server/routes.ts:180-256 | an SOS keeps both tables well-formed and keyed by id |
| Dispatch.SosRejectsMalformed | server/routes.ts:182-191 | a request missing a field, or with a field of the wrong type, gets 400 and changes nothing |
| Dispatch.SosPendingWhenNoneAvailable | server/routes.ts:207-231 | with no ambulance available: a pending incident with no ambulance and ETA "15 min", an empty nearest list, and no ambulance changed |
| Dispatch.SomeAvailable | server/routes.ts:195-197 | the store has an available ambulance exactly when the filtered fleet is not empty |
| Dispatch.SosIncidentFor | server/routes.ts:216-231 | the new incident is at the request's place and time, unresolved, pending exactly when it has no ambulance, and otherwise assigned to the nearest candidate with its ETA; with no candidate its ETA is "15 min" |
| Dispatch.SosReplyStored | server/routes.ts:216-251 | the 201 reply returns the incident stored under the fresh id, and contact details exactly when it names an ambulance, those of that stored ambulance |
| Dispatch.SosChoosesFirstClosest | server/routes.ts:195-221 | with an ambulance available, the incident gets the earliest, in store order, of the available ambulances at the smallest distance |
| Dispatch.SosReservesChosen | server/routes.ts:208-240 | the chosen ambulance was available and becomes busy, no other changes, and the incident is created assigned to it with the ETA of its distance |
| Dispatch.SosNearestList | server/routes.ts:205-250 | the reply lists min(3, #available) distinct stored available ambulances, each with its distance from the request and the ETA of that distance, ascending by distance, none farther than a stored available ambulance left off; the first shows as assigned, the rest as available |
| Dispatch.StoredAvailable | server/routes.ts:195-197 | a stored available ambulance is among the filtered fleet, under its own id |
| Dispatch.SosAppendsIncident | server/routes.ts:216-231 | an SOS under a fresh id appends exactly the new incident |
| Dispatch.AssignedState | server/routes.ts:285-295 | the tables after a successful assignment stay well-formed and keyed by id |
| Dispatch.ReleasePrevious | server/routes.ts:287-289 | the ambulances keep their keys; the previous ambulance, when there is one, it differs from the new one and it is stored, becomes available; every other ambulance is unchanged |
| Dispatch.Assign | server/routes.ts:258-310 | an assignment keeps both tables well-formed and keyed by id |
| Dispatch.AssignChecksFirst | server/routes.ts:263-275 | the checks run in order: missing ambulance id gives 400, unknown incident 404, unknown ambulance 404; a failure changes nothing |
| Dispatch.AssignSuccess | server/routes.ts:277-305 | the target becomes busy and a different previous ambulance becomes available, no other ambulance changes; the incident gets the ambulance, status assigned and the new ETA, other fields kept |
| Dispatch.AssignIgnoresAvailability | server/routes.ts:272-295 | an ambulance already named by another incident is assigned anyway, leaving both incidents naming it |
| Dispatch.ReassignSameReleasesNothing | server/routes.ts:287-289 | re-assigning an incident's own ambulance changes no other ambulance |
| Dispatch.AssignIdempotent | server/routes.ts:258-310 | assigning the same ambulance to the same incident twice leaves the state of one assignment |
| Dispatch.Resolve | server/routes.ts:312-340 | a resolution keeps both tables well-formed and keyed by id |
| Dispatch.ResolveSpec | server/routes.ts:316-335 | an unknown incident gets 404 and changes nothing; otherwise its ambulance becomes available, no other changes, and the incident becomes resolved at the clock, keeping its ambulance |
| Dispatch.ResolveIdempotent | server/routes.ts:312-340 | resolving twice with the same clock leaves the state of resolving once |
| Otp.OtpCode | server/routes.ts:21-23 | the code lies in [100000, 999999] |
| Otp.GenerateOtp | server/routes.ts:21-23 | the OTP is six decimal digits, no leading zero, and reads back as the code |
| Otp.ExpiresAt | server/routes.ts:44 | a session expires 300000 ms, five minutes, after it is issued |
| Otp.Expired | server/routes.ts:77 | a session is accepted up to and including its expiry instant, and expired after it |
| Otp.ValidForFiveMinutes | server/routes.ts:44 | a session passes the expiry check at every instant up to and including five minutes after issue, and never later |
| Routes.HandleSos | server/routes.ts:180-256 | the store ends as Dispatch.Sos says and the reply is its reply; sessions, patients and records are unchanged |
| Routes.ReserveNearest | server/routes.ts:211-214 | with a nearest candidate its ambulance becomes busy; with none the fleet is unchanged |
| Routes.HandleAssign | server/routes.ts:258-310 | the store ends as Dispatch.Assign says and the reply is its reply; sessions, patients and records are unchanged |
| Routes.WriteAssignment | server/routes.ts:285-295 | the three writes of an assignment leave the tables as Dispatch.AssignedState says and return the stored incident |
| Routes.ReleasePreviousAmbulance | server/routes.ts:287-289 | the ambulances end as Dispatch.ReleasePrevious says |
| Routes.HandleResolve | server/routes.ts:312-340 | the store ends as Dispatch.Resolve says and the reply is its reply; sessions, patients and records are unchanged |
| Routes.RequestOtp | server/routes.ts:30-62 | a missing or empty id gives 400; an id that is not a string gives 500, or 404 when no patient is stored; an unknown patient 404; none of these changes anything; otherwise one unverified session for the stored patient's ABHA id, expiring five minutes on, and the reply carries its id and OTP |
| Routes.VerifyOtp | server/routes.ts:64-100 | checks in order: missing field 400, unknown session 404, expired 400, wrong code 400, all with no change; only when all pass is the session marked verified, then a missing patient gives 404 |

## Left out

- `calculateDistance`: the haversine formula is not modelled. A distance is any non-negative real (`Ranking.Metric`), which is all the ranking and ETA proofs need.
- Floating point: positions, distances and offsets are exact reals. NaN and rounding are not modelled.
- Text.Lower: lower-cases ASCII letters only; the full Unicode case mapping of `toLowerCase` is not modelled.
- The schema library's validation messages: a malformed SOS gets the fixed text `Dispatch.InvalidSosRequest` in place of the generated message. The validation itself is reduced to "each field is present with the right type" (`Dispatch.SosRequest` holds `None` otherwise).
- The other `try`/`catch` paths that answer 500: for the inputs modelled here the SOS, verification, assignment and resolution code does not throw. A request with no parsed body at all, whose destructuring would throw, is not modelled.
- `getIncidents` and the other store operations the handlers above do not call (users, hospitals, patients by id, record creation): not part of the model.
- Seed data and the three-second timer: the constructor takes the seed tables as parameters, and one timer callback is `Storage.MemStorage.SimulationTick`.
- Patches that carry `id` or keys set to `undefined`: patches here never name `id`, and a field is either absent or has a value.
- Status fields hold only the listed statuses. The source types them as free text, but only these values are ever written.
- `expiresAt` is held as milliseconds. The source stores the ISO-8601 text and parses it back to the same instant.
- The display format of `createdAt` and `resolvedAt` (Indian locale, 12-hour clock) is not modelled; the text is a parameter.
- Routes.VerifyOtp: the session id and code are modelled as strings; a request body with a non-string truthy value is not.
- Routes.HandleAssign: the request's ambulance id is modelled as a string; a body with a non-string truthy value is not.
- The client pages and the database schema's constraints: not part of this model.
