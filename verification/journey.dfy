/** The part of `plan_journey` that ties the date phrase to the two
    stations (main.py:150-183): the date is settled first, then origin and
    destination are resolved against the same station list, and the
    search goes ahead only when both resolve. */
module Journey {
  import opened Wrappers
  import opened Text
  import opened StationIndex
  import opened Resolver
  import opened DatePhrase

  datatype JourneyError =
    | BadDate(cause: DateError)  // the date phrase raised
    | StationNotFound            // "Origin or destination station not found"

  /** The ride search `plan_journey` goes on to make. */
  datatype Search = Search(date: Target, origin: string, destination: string)

  /** Python truthiness of a resolved code: `None` and `""` are false. */
  predicate IsFound(code: Option<string>) {
    code.Some? && code.value != []
  }

  /** The guard of `plan_journey` once the date and both codes are known:
      a date error comes first, then a missing or empty code on either
      side. */
  function Decide(date: Result<Target, DateError>, o: Option<string>, d: Option<string>)
    : (r: Result<Search, JourneyError>)
    ensures date.Failure? ==> r == Failure(BadDate(date.error))
    ensures r == Failure(StationNotFound) <==> date.Success? && (!IsFound(o) || !IsFound(d))
    ensures r.Success? <==> date.Success? && IsFound(o) && IsFound(d)
    ensures r.Success? ==> r == Success(Search(date.value, o.value, d.value))
  {
    match date
    case Failure(e) => Failure(BadDate(e))
    case Success(t) =>
      if !IsFound(o) || !IsFound(d) then Failure(StationNotFound)
      else Success(Search(t, o.value, d.value))
  }

  /** `plan_journey(origin, destination, when)` up to the ride search, with
      the fetched station list as a parameter. */
  function PlanJourney(origin: string, destination: string, when: string, stations: seq<Station>)
    : (r: Result<Search, JourneyError>)
    ensures ParseWhen(when).Failure? ==> r == Failure(BadDate(ParseWhen(when).error))
    ensures r.Success? ==>
              && r.value.date == ParseWhen(when).value
              && r.value.origin != [] && r.value.destination != []
              && Resolve(origin, stations) == Some(r.value.origin)
              && Resolve(destination, stations) == Some(r.value.destination)
    ensures r.Success? ==>
              && (exists i :: 0 <= i < |stations| && stations[i].code == r.value.origin)
              && (exists i :: 0 <= i < |stations| && stations[i].code == r.value.destination)
  {
    Decide(ParseWhen(when), Resolve(origin, stations), Resolve(destination, stations))
  }

  /** When every station has a non-empty code, an endpoint resolves to a
      usable code exactly when some station name contains it. */
  lemma {:induction false} FoundIffNamed(input: string, stations: seq<Station>)
    requires forall i :: 0 <= i < |stations| ==> stations[i].code != []
    ensures IsFound(Resolve(input, stations)) <==> AnyNameContains(stations, Normalize(input))
  {
    var r := Resolve(input, stations);
    if r.Some? {
      var i :| 0 <= i < |stations| && stations[i].code == r.value;
      assert r.value != [];
    }
  }

  /** With a readable date and stations whose codes are all non-empty, the
      search goes ahead exactly when some station name contains each
      endpoint. */
  lemma {:induction false} JourneyFound(origin: string, destination: string, when: string, stations: seq<Station>)
    requires forall i :: 0 <= i < |stations| ==> stations[i].code != []
    ensures ParseWhen(when).Success? ==>
              (PlanJourney(origin, destination, when, stations).Success? <==>
                 AnyNameContains(stations, Normalize(origin)) && AnyNameContains(stations, Normalize(destination)))
  {
    FoundIffNamed(origin, stations);
    FoundIffNamed(destination, stations);
  }

  /** Origin and destination are resolved alike: swapping them swaps the
      codes of the search and changes nothing else. */
  lemma {:induction false} JourneySymmetric(origin: string, destination: string, when: string, stations: seq<Station>)
    ensures PlanJourney(origin, destination, when, stations).Success? <==>
              PlanJourney(destination, origin, when, stations).Success?
    ensures PlanJourney(origin, destination, when, stations).Success? ==>
              var a := PlanJourney(origin, destination, when, stations).value;
              PlanJourney(destination, origin, when, stations) == Success(Search(a.date, a.destination, a.origin))
  {
    var date := ParseWhen(when);
    var o, d := Resolve(origin, stations), Resolve(destination, stations);
    assert PlanJourney(origin, destination, when, stations) == Decide(date, o, d);
    assert PlanJourney(destination, origin, when, stations) == Decide(date, d, o);
  }

  /** With no stations nothing resolves: the journey fails, and with a
      readable date it fails with "station not found". */
  lemma {:induction false} NoStationsNoJourney(origin: string, destination: string, when: string)
    ensures PlanJourney(origin, destination, when, []).Failure?
    ensures ParseWhen(when).Success? ==> PlanJourney(origin, destination, when, []) == Failure(StationNotFound)
  {
    assert !AnyNameContains([], Normalize(origin));
    assert Resolve(origin, []) == None;
  }
}
