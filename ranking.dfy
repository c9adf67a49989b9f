/**
 * The pure part of the SOS handler (server/routes.ts:195-207, 244-250):
 * keep the available ambulances, measure each one's distance and ETA from
 * the incident, sort them by distance and keep the nearest three; and the
 * ETA arithmetic shared with the manual assignment (server/routes.ts:277-283).
 */
module Ranking {
  import opened Schema
  import opened Sorting
  import opened Text

  /** The source's calculateDistance: the haversine distance in
      kilometres. Its trigonometry is not modelled; the ranking relies only
      on distances being non-negative reals. */
  type Metric = f: (real, real, real, real) -> real
    | forall lat1, lon1, lat2, lon2 :: 0.0 <= f(lat1, lon1, lat2, lon2)
    witness (lat1: real, lon1: real, lat2: real, lon2: real) => 0.0

  /** The smallest integer not below x. */
  function Ceil(x: real): (n: int)
    ensures (n as real) - 1.0 < x <= n as real
  {
    var f := x.Floor;
    if f as real == x then f else f + 1
  }

  /** Three minutes per kilometre, rounded up to a whole minute. */
  function EtaMinutes(distance: real): (minutes: nat)
    requires 0.0 <= distance
    ensures (minutes as real) - 1.0 < 3.0 * distance <= minutes as real
  {
    Ceil(3.0 * distance)
  }

  /** A farther ambulance never gets a shorter ETA. */
  lemma {:induction false} EtaMonotonic(d1: real, d2: real)
    requires 0.0 <= d1 <= d2
    ensures EtaMinutes(d1) <= EtaMinutes(d2)
  {
  }

  /** The ETA as the handlers display it: the minutes, a space, "min". */
  function EtaText(minutes: nat): (text: string)
    ensures |text| > 4 && text[|text| - 4..] == " min"
    ensures AllDigits(text[..|text| - 4]) && ParseNat(text[..|text| - 4]) == minutes
    ensures |text| > 5 ==> text[0] != '0'
  {
    ParseNatToString(minutes);
    var digits := NatToString(minutes);
    assert (digits + " min")[..|digits|] == digits;
    digits + " min"
  }

  /** The ETA an incident gets when no ambulance is available. */
  const FallbackEta: string := "15 min"

  /** An available ambulance with its distance and ETA to the incident
      attached. */
  datatype Candidate = Candidate(ambulance: Ambulance, distance: real, eta: nat)

  function DistanceTo(a: Ambulance, lat: real, lon: real, dist: Metric): real {
    dist(lat, lon, a.latitude, a.longitude)
  }

  function CandidateId(c: Candidate): Id {
    c.ambulance.id
  }

  function DistanceOf(c: Candidate): real {
    c.distance
  }

  /** The ambulances whose status is available, in fleet order. */
  function AvailableOf(fleet: seq<Ambulance>): (av: seq<Ambulance>)
    ensures |av| <= |fleet|
    ensures forall a :: a in av <==> a in fleet && a.status == Available
  {
    if fleet == [] then []
    else
      assert fleet == [fleet[0]] + fleet[1..];
      (if fleet[0].status == Available then [fleet[0]] else []) + AvailableOf(fleet[1..])
  }

  /** The filter keeps each available ambulance as often as the fleet holds
      it, and drops every other. */
  lemma {:induction false} AvailableOfCount(fleet: seq<Ambulance>)
    ensures forall a :: multiset(AvailableOf(fleet))[a] == if a.status == Available then multiset(fleet)[a] else 0
  {
    if fleet != [] {
      var tail := fleet[1..];
      AvailableOfCount(tail);
      assert fleet == [fleet[0]] + tail;
      var head := if fleet[0].status == Available then [fleet[0]] else [];
      assert AvailableOf(fleet) == head + AvailableOf(tail);
      assert multiset(fleet) == multiset([fleet[0]]) + multiset(tail);
      assert multiset(AvailableOf(fleet)) == multiset(head) + multiset(AvailableOf(tail));
    }
  }

  /** Each position one further along. */
  function Shifted(ps: seq<nat>): (r: seq<nat>)
    ensures |r| == |ps| && forall k :: 0 <= k < |ps| ==> r[k] == ps[k] + 1
  {
    seq(|ps|, k requires 0 <= k < |ps| => ps[k] + 1)
  }

  /** Where each available ambulance sits in the fleet. */
  ghost function AvailablePositions(fleet: seq<Ambulance>): (ps: seq<nat>)
    ensures |ps| == |AvailableOf(fleet)|
  {
    if fleet == [] then []
    else
      var shifted := Shifted(AvailablePositions(fleet[1..]));
      if fleet[0].status == Available then [0] + shifted else shifted
  }

  /** `ps` lists, in strictly increasing order, positions of `fleet` whose
      entries, in that order, make up `av`. */
  ghost predicate InFleetOrder(ps: seq<nat>, av: seq<Ambulance>, fleet: seq<Ambulance>) {
    && |ps| == |av|
    && (forall i :: 0 <= i < |ps| ==> ps[i] < |fleet| && av[i] == fleet[ps[i]])
    && (forall i, j :: 0 <= i < j < |ps| ==> ps[i] < ps[j])
  }

  /** Shifting the positions of a tail by one places them in the whole fleet. */
  lemma ShiftedInFleetOrder(fleet: seq<Ambulance>, rest: seq<nat>, restAv: seq<Ambulance>)
    requires fleet != [] && InFleetOrder(rest, restAv, fleet[1..])
    ensures InFleetOrder(Shifted(rest), restAv, fleet)
  {
  }

  /** Putting position 0 in front keeps the order when the fleet's first
      entry leads the list. */
  lemma ConsInFleetOrder(fleet: seq<Ambulance>, shifted: seq<nat>, restAv: seq<Ambulance>)
    requires fleet != [] && InFleetOrder(shifted, restAv, fleet)
    requires forall k :: 0 <= k < |shifted| ==> 0 < shifted[k]
    ensures InFleetOrder([0] + shifted, [fleet[0]] + restAv, fleet)
  {
    var ps := [0] + shifted;
    var av := [fleet[0]] + restAv;
    forall i | 0 < i < |ps| ensures ps[i] == shifted[i - 1] && av[i] == restAv[i - 1] {
    }
  }

  /** The filter keeps fleet order: the i-th available ambulance is the
      fleet's entry at the i-th position, and the positions strictly
      increase. */
  lemma {:induction false} AvailableInFleetOrder(fleet: seq<Ambulance>)
    ensures InFleetOrder(AvailablePositions(fleet), AvailableOf(fleet), fleet)
  {
    if fleet != [] {
      var tail := fleet[1..];
      AvailableInFleetOrder(tail);
      var rest := AvailablePositions(tail);
      var restAv := AvailableOf(tail);
      ShiftedInFleetOrder(fleet, rest, restAv);
      if fleet[0].status == Available {
        ConsInFleetOrder(fleet, Shifted(rest), restAv);
        assert AvailablePositions(fleet) == [0] + Shifted(rest);
        assert AvailableOf(fleet) == [fleet[0]] + restAv;
      } else {
        assert AvailablePositions(fleet) == Shifted(rest);
        assert AvailableOf(fleet) == restAv;
      }
    }
  }

  function Measure(a: Ambulance, lat: real, lon: real, dist: Metric): (c: Candidate)
    ensures c.ambulance == a && c.distance == DistanceTo(a, lat, lon, dist)
    ensures c.eta == EtaMinutes(c.distance)
  {
    var d := DistanceTo(a, lat, lon, dist);
    Candidate(a, d, EtaMinutes(d))
  }

  /** The filtered fleet, each ambulance measured against (lat, lon). */
  function Candidates(fleet: seq<Ambulance>, lat: real, lon: real, dist: Metric): (cs: seq<Candidate>)
    ensures |cs| == |AvailableOf(fleet)|
    ensures forall i :: 0 <= i < |cs| ==> cs[i] == Measure(AvailableOf(fleet)[i], lat, lon, dist)
  {
    var av := AvailableOf(fleet);
    seq(|av|, i requires 0 <= i < |av| => Measure(av[i], lat, lon, dist))
  }

  /** The candidates in ascending order of distance, ties kept in fleet order. */
  function Ranked(fleet: seq<Ambulance>, lat: real, lon: real, dist: Metric): (r: seq<Candidate>)
    ensures multiset(r) == multiset(Candidates(fleet, lat, lon, dist))
    ensures |r| == |AvailableOf(fleet)|
    ensures SortedBy(r, DistanceOf)
  {
    SortBy(Candidates(fleet, lat, lon, dist), DistanceOf)
  }

  /** At most the first three of the ranking. */
  function NearestThree(ranked: seq<Candidate>): (nearest: seq<Candidate>)
    ensures |nearest| == if |ranked| < 3 then |ranked| else 3
    ensures nearest <= ranked
  {
    ranked[..if |ranked| < 3 then |ranked| else 3]
  }

  /** The ranking holds every available ambulance, measured, and nothing
      else: each entry is an available ambulance of the fleet, and each
      available ambulance has its entry. */
  lemma {:induction false} RankedCandidates(fleet: seq<Ambulance>, lat: real, lon: real, dist: Metric)
    ensures var r := Ranked(fleet, lat, lon, dist);
      && (forall i :: 0 <= i < |r| ==>
            && r[i].ambulance in fleet
            && r[i].ambulance.status == Available
            && r[i] == Measure(r[i].ambulance, lat, lon, dist))
      && (forall a :: a in AvailableOf(fleet) ==> Measure(a, lat, lon, dist) in r)
  {
    var av := AvailableOf(fleet);
    var cs := Candidates(fleet, lat, lon, dist);
    var r := Ranked(fleet, lat, lon, dist);
    forall i | 0 <= i < |r|
      ensures r[i].ambulance in av
      ensures r[i] == Measure(r[i].ambulance, lat, lon, dist)
    {
      assert r[i] in multiset(cs);
      var j :| 0 <= j < |cs| && cs[j] == r[i];
    }
    forall a | a in av ensures Measure(a, lat, lon, dist) in r {
      var j :| 0 <= j < |av| && av[j] == a;
      assert cs[j] in multiset(r);
    }
  }

  /** `av[i]` is, in the order of `av`, the first of the ambulances at the
      smallest distance from (lat, lon). */
  ghost predicate FirstClosest(av: seq<Ambulance>, i: int, lat: real, lon: real, dist: Metric) {
    && 0 <= i < |av|
    && (forall j :: 0 <= j < |av| ==> DistanceTo(av[i], lat, lon, dist) <= DistanceTo(av[j], lat, lon, dist))
    && (forall j :: 0 <= j < i ==> DistanceTo(av[i], lat, lon, dist) < DistanceTo(av[j], lat, lon, dist))
  }

  /** The first of the ranking is, among the available ambulances in store
      order, the earliest of those at the smallest distance. */
  lemma {:induction false} NearestIsFirstClosest(fleet: seq<Ambulance>, lat: real, lon: real, dist: Metric)
    requires |AvailableOf(fleet)| > 0
    ensures var av := AvailableOf(fleet);
      var r := Ranked(fleet, lat, lon, dist);
      && |r| > 0
      && exists i :: FirstClosest(av, i, lat, lon, dist) && r[0] == Measure(av[i], lat, lon, dist)
  {
    var av := AvailableOf(fleet);
    var cs := Candidates(fleet, lat, lon, dist);
    SortByHead(cs, DistanceOf);
    var m := FirstMinIndex(cs, DistanceOf);
    var r := Ranked(fleet, lat, lon, dist);
    assert r[0] == cs[m] == Measure(av[m], lat, lon, dist);
    forall j | 0 <= j < |av|
      ensures DistanceTo(av[m], lat, lon, dist) <= DistanceTo(av[j], lat, lon, dist)
      ensures j < m ==> DistanceTo(av[m], lat, lon, dist) < DistanceTo(av[j], lat, lon, dist)
    {
      assert DistanceOf(cs[j]) == DistanceTo(av[j], lat, lon, dist);
      assert DistanceOf(cs[m]) <= DistanceOf(cs[j]);
    }
    assert FirstClosest(av, m, lat, lon, dist);
  }

  /** Filtering a fleet whose ids are distinct keeps them distinct. */
  lemma AvailableOfDistinct(fleet: seq<Ambulance>)
    requires DistinctBy(fleet, AmbulanceId)
    ensures DistinctBy(AvailableOf(fleet), AmbulanceId)
  {
    var av, ps := AvailableOf(fleet), AvailablePositions(fleet);
    AvailableInFleetOrder(fleet);
    forall i, j | 0 <= i < j < |av| ensures av[i].id != av[j].id {
      assert av[i] == fleet[ps[i]] && av[j] == fleet[ps[j]] && ps[i] < ps[j];
    }
  }

  /** How the response lists the nearest ambulances. */
  datatype ShownStatus = ShownAssigned | ShownStored(status: AmbulanceStatus)

  datatype Nearby = Nearby(id: Id, vehicleNumber: string, distance: real, eta: nat, status: ShownStatus)

  /** The reply's view of the nearest candidates: the one whose id is the
      assigned ambulance's, the first of the list, is shown as assigned, the
      others with their stored status. */
  function NearbyView(nearest: seq<Candidate>): (view: seq<Nearby>)
    ensures |view| == |nearest|
    ensures forall i :: 0 <= i < |nearest| ==>
      && view[i].id == nearest[i].ambulance.id
      && view[i].vehicleNumber == nearest[i].ambulance.vehicleNumber
      && view[i].distance == nearest[i].distance
      && view[i].eta == nearest[i].eta
      && (nearest[i].ambulance.id == nearest[0].ambulance.id ==> view[i].status == ShownAssigned)
      && (nearest[i].ambulance.id != nearest[0].ambulance.id ==>
            view[i].status == ShownStored(nearest[i].ambulance.status))
  {
    seq(|nearest|, i requires 0 <= i < |nearest| =>
      var a := nearest[i].ambulance;
      Nearby(a.id, a.vehicleNumber, nearest[i].distance, nearest[i].eta,
             if a.id == nearest[0].ambulance.id then ShownAssigned else ShownStored(a.status)))
  }

  /** Whether the reply lists the ambulance with this id. */
  ghost predicate Listed(view: seq<Nearby>, id: Id) {
    exists j :: 0 <= j < |view| && view[j].id == id
  }

  /** The nearest list of an SOS response: min(3, #available) entries for
      distinct available ambulances, in ascending distance, none farther
      than any available ambulance left off the list; the first is shown as
      assigned and the others with their stored status, which is
      `available`. */
  lemma {:induction false} NearestListShape(fleet: seq<Ambulance>, lat: real, lon: real, dist: Metric)
    requires DistinctBy(fleet, AmbulanceId)
    ensures var n := |AvailableOf(fleet)|;
      var nearest := NearestThree(Ranked(fleet, lat, lon, dist));
      var view := NearbyView(nearest);
      && |view| == (if n < 3 then n else 3)
      && (forall i :: 0 <= i < |view| ==> nearest[i].ambulance in fleet && nearest[i].ambulance.status == Available)
      && (forall i :: 0 <= i < |view| ==>
            view[i].distance == DistanceTo(nearest[i].ambulance, lat, lon, dist) && view[i].eta == EtaMinutes(view[i].distance))
      && (forall i, j :: 0 <= i < j < |view| ==> view[i].id != view[j].id)
      && (forall i, j :: 0 <= i < j < |view| ==> view[i].distance <= view[j].distance)
      && (forall a, i :: a in AvailableOf(fleet) && !Listed(view, a.id) && 0 <= i < |view| ==>
            view[i].distance <= DistanceTo(a, lat, lon, dist))
      && (|view| > 0 ==> view[0].status == ShownAssigned)
      && (forall i :: 1 <= i < |view| ==> view[i].status == ShownStored(Available))
  {
    var r := Ranked(fleet, lat, lon, dist);
    var av := AvailableOf(fleet);
    RankedCandidates(fleet, lat, lon, dist);
    RankedDistinct(fleet, lat, lon, dist);
    var nearest := NearestThree(r);
    var view := NearbyView(nearest);
    forall i | 1 <= i < |view| ensures view[i].status == ShownStored(Available) {
      assert nearest[i] == r[i] && nearest[0] == r[0];
      assert CandidateId(r[0]) != CandidateId(r[i]);
    }
    forall i, j | 0 <= i < j < |view| ensures view[i].id != view[j].id {
      assert CandidateId(r[i]) != CandidateId(r[j]);
    }
    forall i | 0 <= i < |view|
      ensures view[i].distance == DistanceTo(nearest[i].ambulance, lat, lon, dist) && view[i].eta == EtaMinutes(view[i].distance)
    {
      assert nearest[i] == r[i];
    }
    forall a, i | a in av && !Listed(view, a.id) && 0 <= i < |view|
      ensures view[i].distance <= DistanceTo(a, lat, lon, dist)
    {
      NearestCovers(r, view, a, i, lat, lon, dist);
    }
  }

  /** The ranking names each ambulance at most once. */
  lemma {:induction false} RankedDistinct(fleet: seq<Ambulance>, lat: real, lon: real, dist: Metric)
    requires DistinctBy(fleet, AmbulanceId)
    ensures DistinctBy(Ranked(fleet, lat, lon, dist), CandidateId)
  {
    var cs := Candidates(fleet, lat, lon, dist);
    var av := AvailableOf(fleet);
    AvailableOfDistinct(fleet);
    assert DistinctBy(cs, CandidateId) by {
      forall i, j | 0 <= i < j < |cs| ensures cs[i].ambulance.id != cs[j].ambulance.id {
        assert cs[i].ambulance == av[i] && cs[j].ambulance == av[j];
      }
    }
    SortByDistinctBy(cs, DistanceOf, CandidateId);
  }

  /** An available ambulance left off the list sits in the ranking after
      every listed one, so no listed one is farther. */
  lemma {:induction false} NearestCovers(r: seq<Candidate>, view: seq<Nearby>, a: Ambulance, i: int,
                                         lat: real, lon: real, dist: Metric)
    requires SortedBy(r, DistanceOf) && Measure(a, lat, lon, dist) in r
    requires view == NearbyView(NearestThree(r)) && 0 <= i < |view| && !Listed(view, a.id)
    ensures view[i].distance <= DistanceTo(a, lat, lon, dist)
  {
    var j :| 0 <= j < |r| && r[j] == Measure(a, lat, lon, dist);
    assert j >= |view|;
    assert view[i].distance == r[i].distance;
  }
}
