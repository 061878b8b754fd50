/**
  Validation of the app's forms.

  RouteForm decides whether a new leg may join the route set. Field cleaning
  comes first (a required field left empty, a choice that names no airport or
  route, a negative duration); a field that fails it is dropped from the
  cleaned data. Then `clean` runs the four tree checks on what is left. Each
  check that fires records its error with `add_error`, which does not stop
  the others, so the outcome is the SET of all errors; the leg is saved only
  when that set is empty.

  The module also states the tree invariants that accepting only error-free
  legs keeps, and the input rules of the two query forms.
 */
module Forms {
  import opened Models

  // ---------------------------------------------------------------------------
  // RouteForm

  /** The fields of RouteForm, the places `add_error` attaches an error to. */
  datatype Field = FromAirport | ToAirport | PositionField | DurationField | ParentField

  datatype RouteError =
    | FieldInvalid(field: Field)                          // left empty, an unknown choice, or out of range
    | SameAirport                                         // origin and destination are one airport
    | PositionTaken(from: AirportId, position: Position)  // another leg has this (origin, position)
    | RootElsewhere(root: AirportId)                      // parentless leg away from the root airport
    | ParentMismatch                                      // origin is not the parent's destination

  /** What a user submits: None is an empty field or a choice outside the
      position choices. Airports and parent are given by primary key. */
  datatype RouteInput = RouteInput(
    from: Option<AirportId>,
    to: Option<AirportId>,
    position: Option<Position>,
    duration: Option<int>,
    parent: Option<RouteId>)

  /** `cleaned_data` as `clean` sees it: a field that failed cleaning is absent. */
  datatype Cleaned = Cleaned(
    from: Option<AirportId>,
    to: Option<AirportId>,
    position: Option<Position>,
    parent: Option<Route>)

  /** A ModelChoiceField over all airports. */
  function CleanAirport(airports: seq<Airport>, v: Option<AirportId>): (r: Option<AirportId>)
    ensures r.Some? <==> v.Some? && v.value in AirportIds(airports)
    ensures r.Some? ==> r == v
  {
    if v.Some? && v.value in AirportIds(airports) then v else None
  }

  /** The optional ModelChoiceField over all routes: blank means no parent. */
  function CleanParent(routes: seq<Route>, v: Option<RouteId>): (r: Option<Route>)
    ensures r.Some? ==> v.Some? && r.value in routes && r.value.id == v.value
    ensures r.None? && v.Some? ==> forall x :: x in routes ==> x.id != v.value
  {
    if v.None? then None else FindRoute(routes, v.value)
  }

  function Clean(airports: seq<Airport>, routes: seq<Route>, input: RouteInput): Cleaned
  {
    Cleaned(CleanAirport(airports, input.from), CleanAirport(airports, input.to),
            input.position, CleanParent(routes, input.parent))
  }

  /** The errors of field cleaning: one per field, on the field that fails. */
  function FieldErrors(airports: seq<Airport>, routes: seq<Route>, input: RouteInput): (r: set<RouteError>)
    ensures forall e :: e in r ==> e.FieldInvalid?
    ensures FieldInvalid(FromAirport) in r <==> CleanAirport(airports, input.from).None?
    ensures FieldInvalid(ToAirport) in r <==> CleanAirport(airports, input.to).None?
    ensures FieldInvalid(PositionField) in r <==> input.position.None?
    ensures FieldInvalid(DurationField) in r <==> input.duration.None? || input.duration.value < 0 || input.duration.value > DurationMax
    ensures FieldInvalid(ParentField) in r <==> input.parent.Some? && CleanParent(routes, input.parent).None?
  {
    (if CleanAirport(airports, input.from).None? then {FieldInvalid(FromAirport)} else {})
    + (if CleanAirport(airports, input.to).None? then {FieldInvalid(ToAirport)} else {})
    + (if input.position.None? then {FieldInvalid(PositionField)} else {})
    + (if input.duration.None? || input.duration.value < 0 || input.duration.value > DurationMax
       then {FieldInvalid(DurationField)} else {})
    + (if input.parent.Some? && CleanParent(routes, input.parent).None? then {FieldInvalid(ParentField)} else {})
  }

  /** Field cleaning passes exactly when both airports exist, a position is
      chosen, the duration is in range and a given parent key names a leg.
      Cleaning then hands on the submitted airports and position unchanged
      and resolves the parent key to that leg. */
  lemma FieldsAccepted(airports: seq<Airport>, routes: seq<Route>, input: RouteInput)
    ensures FieldErrors(airports, routes, input) == {} <==>
      && input.from.Some? && input.from.value in AirportIds(airports)
      && input.to.Some? && input.to.value in AirportIds(airports)
      && input.position.Some?
      && input.duration.Some? && 0 <= input.duration.value <= DurationMax
      && (input.parent.Some? ==> input.parent.value in RouteIds(routes))
    ensures FieldErrors(airports, routes, input) == {} ==>
      var data := Clean(airports, routes, input);
      && data.from == input.from && data.to == input.to && data.position == input.position
      && (input.parent.None? ==> data.parent.None?)
      && (input.parent.Some? ==> data.parent.Some? && data.parent.value in routes && data.parent.value.id == input.parent.value)
  {
    var errs := FieldErrors(airports, routes, input);
    if input.parent.Some? && input.parent.value in RouteIds(routes) {
      var p :| p in routes && p.id == input.parent.value;
      assert CleanParent(routes, input.parent).Some?;
    }
    if errs == {} {
      assert FieldInvalid(ParentField) !in errs;
    }
  }

  /** The parentless legs, in primary-key order. */
  function Roots(routes: seq<Route>): (r: seq<Route>)
    ensures forall x :: x in r <==> x in routes && x.parent.None?
  {
    Filter(routes, (x: Route) => x.parent.None?)
  }

  /** The legs other than the one being edited that leave `from` at `position`. */
  function Occupants(routes: seq<Route>, from: AirportId, position: Position, instance: Option<RouteId>): (r: seq<Route>)
    ensures forall x :: x in r <==> x in routes && x.from == from && x.position == position && Some(x.id) != instance
  {
    Filter(routes, (x: Route) => x.from == from && x.position == position && Some(x.id) != instance)
  }

  /** The uniqueness check on (origin, position): another leg already leaves
      the origin at that position. */
  function PositionErrors(routes: seq<Route>, data: Cleaned, instance: Option<RouteId>): (r: set<RouteError>)
    ensures forall e :: e in r ==> e.PositionTaken?
    ensures forall f: AirportId, p :: PositionTaken(f, p) in r <==>
      && data.from == Some(f) && data.position == Some(p)
      && exists x :: x in routes && x.from == f && x.position == p && Some(x.id) != instance
  {
    if data.from.Some? && data.position.Some? then
      var occupants := Occupants(routes, data.from.value, data.position.value, instance);
      assert forall x :: (x in routes && x.from == data.from.value && x.position == data.position.value
                           && Some(x.id) != instance) ==> x in occupants;
      if |occupants| > 0 then
        assert occupants[0] in occupants;
        {PositionTaken(data.from.value, data.position.value)}
      else {}
    else {}
  }

  /** The root and parent checks: a parentless leg must leave the airport of
      the first root leg; a child leg must leave where its parent arrives. */
  function TreeErrors(routes: seq<Route>, data: Cleaned): (r: set<RouteError>)
    ensures forall e :: e in r ==> e.RootElsewhere? || e.ParentMismatch?
    ensures forall a: AirportId :: RootElsewhere(a) in r ==>
      && data.parent.None? && data.from != Some(a)
      && exists x :: x in routes && x.parent.None? && x.from == a
    ensures data.parent.None? && data.from.None? && (exists x :: x in routes && x.parent.None?) ==>
      exists a :: RootElsewhere(a) in r
    ensures ParentMismatch in r <==> data.parent.Some? && data.from.Some? && data.from.value != data.parent.value.to
  {
    match data.parent
    case None =>
      var roots := Roots(routes);
      assert forall x :: x in routes && x.parent.None? ==> x in roots;
      if |roots| > 0 && data.from != Some(roots[0].from) then
        assert roots[0] in roots;
        {RootElsewhere(roots[0].from)}
      else {}
    case Some(p) =>
      if data.from.Some? && data.from.value != p.to then {ParentMismatch} else {}
  }

  /** The four tree checks of `RouteForm.clean`; `instance` is the primary key
      of the leg being edited, None when a new leg is added. */
  function CleanErrors(routes: seq<Route>, data: Cleaned, instance: Option<RouteId>): (r: set<RouteError>)
    ensures forall e :: e in r ==> !e.FieldInvalid?
    ensures SameAirport in r <==> data.from.Some? && data.from == data.to
    ensures forall f: AirportId, p :: PositionTaken(f, p) in r <==>
      && data.from == Some(f) && data.position == Some(p)
      && exists x :: x in routes && x.from == f && x.position == p && Some(x.id) != instance
    ensures forall a: AirportId :: RootElsewhere(a) in r ==>
      && data.parent.None? && data.from != Some(a)
      && exists x :: x in routes && x.parent.None? && x.from == a
    ensures data.parent.None? && data.from.None? && (exists x :: x in routes && x.parent.None?) ==>
      exists a :: RootElsewhere(a) in r
    ensures ParentMismatch in r <==> data.parent.Some? && data.from.Some? && data.from.value != data.parent.value.to
  {
    var same := if data.from.Some? && data.to.Some? && data.from == data.to then {SameAirport} else {};
    same + PositionErrors(routes, data, instance) + TreeErrors(routes, data)
  }

  /** Every error of RouteForm, field cleaning and tree checks together. A
      form without error has every field filled in and in range, and two
      distinct airports. */
  function RouteErrors(airports: seq<Airport>, routes: seq<Route>, input: RouteInput, instance: Option<RouteId>): (r: set<RouteError>)
    ensures r == {} ==>
      && input.from.Some? && input.to.Some? && input.position.Some?
      && input.duration.Some? && 0 <= input.duration.value <= DurationMax
      && input.from != input.to
  {
    FieldErrors(airports, routes, input) + CleanErrors(routes, Clean(airports, routes, input), instance)
  }

  /** The leg an error-free form saves under primary key `id`. */
  function NewRoute(input: RouteInput, id: RouteId): Route
    requires input.from.Some? && input.to.Some? && input.position.Some?
    requires input.duration.Some? && input.duration.value >= 0
  {
    Route(id, input.from.value, input.to.value, input.position.value, input.duration.value, input.parent)
  }

  // ---------------------------------------------------------------------------
  // Tree invariants

  /** All parentless legs leave the same airport. */
  ghost predicate SingleRootOrigin(routes: seq<Route>)
  {
    forall r1, r2 :: r1 in routes && r2 in routes && r1.parent.None? && r2.parent.None? ==> r1.from == r2.from
  }

  /** Every leg with a parent leaves where an earlier, existing parent leg arrives. */
  ghost predicate ParentContinuity(routes: seq<Route>)
  {
    forall r :: r in routes && r.parent.Some? ==>
      exists p :: p in routes && p.id == r.parent.value && p.id < r.id && p.to == r.from
  }

  ghost predicate NoSelfLoops(routes: seq<Route>)
  {
    forall r :: r in routes ==> r.from != r.to
  }

  /** The shape the tree checks keep: binary branching, one root airport,
      continuity with the parent, no leg from an airport to itself. */
  ghost predicate TreeShape(routes: seq<Route>)
  {
    && RouteIdsIncreasing(routes)
    && PositionsUnique(routes)
    && SingleRootOrigin(routes)
    && ParentContinuity(routes)
    && NoSelfLoops(routes)
  }

  /** The rules RouteForm enforces, stated over the whole leg set. */
  ghost predicate Admissible(airports: seq<Airport>, routes: seq<Route>, input: RouteInput, instance: Option<RouteId>)
  {
    && input.from.Some? && input.from.value in AirportIds(airports)
    && input.to.Some? && input.to.value in AirportIds(airports)
    && input.position.Some?
    && input.duration.Some? && 0 <= input.duration.value <= DurationMax
    && (input.parent.Some? ==> exists p :: p in routes && p.id == input.parent.value)
    && input.from != input.to
    && (forall x :: x in routes && x.from == input.from.value && x.position == input.position.value ==>
          Some(x.id) == instance)
    && (input.parent.None? ==> forall x :: x in routes && x.parent.None? ==> x.from == input.from.value)
    && (input.parent.Some? ==> forall p :: p in routes && p.id == input.parent.value ==> p.to == input.from.value)
  }

  /** On a leg set whose roots share one origin, the form reports no error
      exactly when the submitted leg obeys every rule. */
  lemma AcceptedIffAdmissible(airports: seq<Airport>, routes: seq<Route>, input: RouteInput, instance: Option<RouteId>)
    requires SingleRootOrigin(routes) && RouteIdsIncreasing(routes)
    ensures RouteErrors(airports, routes, input, instance) == {} <==> Admissible(airports, routes, input, instance)
  {
    var data := Clean(airports, routes, input);
    var errs := RouteErrors(airports, routes, input, instance);
    if errs == {} {
      assert FieldErrors(airports, routes, input) == {};
      assert CleanErrors(routes, data, instance) == {};
      assert data.from == input.from && data.to == input.to;
      if input.parent.Some? {
        var p := data.parent.value;
        forall q | q in routes && q.id == input.parent.value ensures q.to == input.from.value {
          RouteIdsUnique(routes, p, q);
        }
      } else {
        RootCheck(routes, data, instance);
      }
      forall x | x in routes && x.from == input.from.value && x.position == input.position.value
        ensures Some(x.id) == instance
      {
        assert PositionTaken(x.from, x.position) !in CleanErrors(routes, data, instance);
      }
    }
    if Admissible(airports, routes, input, instance) {
      assert FieldErrors(airports, routes, input) == {};
      forall e ensures e !in CleanErrors(routes, data, instance) {
        match e
        case RootElsewhere(a) =>
        case ParentMismatch =>
        case SameAirport =>
        case PositionTaken(_, _) =>
        case FieldInvalid(_) =>
      }
    }
  }

  /** The root check passes exactly when no parentless leg leaves another
      airport, whichever root `first()` returns. */
  lemma RootCheck(routes: seq<Route>, data: Cleaned, instance: Option<RouteId>)
    requires SingleRootOrigin(routes)
    requires data.from.Some?
    ensures (exists a :: RootElsewhere(a) in CleanErrors(routes, data, instance)) <==>
      data.parent.None? && exists x :: x in routes && x.parent.None? && x.from != data.from.value
  {
    var errs := CleanErrors(routes, data, instance);
    if data.parent.None? && exists x :: x in routes && x.parent.None? && x.from != data.from.value {
      var x :| x in routes && x.parent.None? && x.from != data.from.value;
      var roots := Roots(routes);
      assert x in roots;
      assert roots[0] in routes;
      assert RootElsewhere(roots[0].from) in errs;
    }
  }

  /** Appending a leg with a larger primary key keeps primary keys increasing. */
  lemma AppendKeepsIdsIncreasing(routes: seq<Route>, n: Route)
    requires RouteIdsIncreasing(routes)
    requires forall x :: x in routes ==> x.id < n.id
    ensures RouteIdsIncreasing(routes + [n])
  {
    var routes' := routes + [n];
    forall i, j | 0 <= i < j < |routes'| ensures RouteKey(routes'[i]) < RouteKey(routes'[j]) {
      if j < |routes| {
        assert routes'[i] == routes[i] && routes'[j] == routes[j];
      } else {
        assert routes'[i] in routes;
      }
    }
  }

  /** Appending a leg whose parent is an earlier leg arriving at its origin
      keeps every leg continuing from its parent. */
  lemma AppendKeepsContinuity(routes: seq<Route>, n: Route)
    requires ParentContinuity(routes)
    requires n.parent.Some? ==> exists p :: p in routes && p.id == n.parent.value && p.id < n.id && p.to == n.from
    ensures ParentContinuity(routes + [n])
  {
    var routes' := routes + [n];
    forall r | r in routes' && r.parent.Some?
      ensures exists p :: p in routes' && p.id == r.parent.value && p.id < r.id && p.to == r.from
    {
      var p :| p in routes && p.id == r.parent.value && p.id < r.id && p.to == r.from;
      assert p in routes';
    }
  }

  /** Appending a leg that takes a free (origin, position) keeps positions unique. */
  lemma AppendKeepsPositionsUnique(routes: seq<Route>, n: Route)
    requires PositionsUnique(routes)
    requires forall x :: x in routes ==> !(x.from == n.from && x.position == n.position)
    ensures PositionsUnique(routes + [n])
  {
  }

  /** Appending a leg that is either a child or leaves the root airport keeps
      a single root airport. */
  lemma AppendKeepsSingleRoot(routes: seq<Route>, n: Route)
    requires SingleRootOrigin(routes)
    requires n.parent.None? ==> forall x :: x in routes && x.parent.None? ==> x.from == n.from
    ensures SingleRootOrigin(routes + [n])
  {
  }

  /** Saving a leg that obeys every rule of the form, under a primary key
      above all existing ones, keeps every tree invariant and the foreign
      keys valid. */
  lemma InsertKeepsTree(airports: seq<Airport>, routes: seq<Route>, input: RouteInput, id: RouteId)
    requires TreeShape(routes) && RoutesReferToAirports(airports, routes)
    requires forall x :: x in routes ==> x.id < id
    requires Admissible(airports, routes, input, None)
    ensures var routes' := routes + [NewRoute(input, id)];
      TreeShape(routes') && RoutesReferToAirports(airports, routes')
  {
    var n := NewRoute(input, id);
    AppendKeepsIdsIncreasing(routes, n);
    AppendKeepsPositionsUnique(routes, n);
    AppendKeepsSingleRoot(routes, n);
    assert n.parent.Some? ==> exists p :: p in routes && p.id == n.parent.value && p.id < n.id && p.to == n.from;
    AppendKeepsContinuity(routes, n);
  }

  // ---------------------------------------------------------------------------
  // SearchNthNodeForm and ShortestNodeForm

  datatype SearchError = AirportInvalid | DirectionInvalid | NthInvalid

  /** A starting airport, a direction among the choices and `nth_position`. */
  datatype SearchInput = SearchInput(airport: Option<AirportId>, direction: Option<Position>, nth: Option<int>)

  /** SearchNthNodeForm accepts an existing airport, a direction and n >= 1. */
  function SearchErrors(airports: seq<Airport>, input: SearchInput): (r: set<SearchError>)
    ensures r == {} <==>
      && input.airport.Some? && input.airport.value in AirportIds(airports)
      && input.direction.Some?
      && input.nth.Some? && input.nth.value >= 1
    ensures NthInvalid in r <==> !(input.nth.Some? && input.nth.value >= 1)
  {
    (if CleanAirport(airports, input.airport).None? then {AirportInvalid} else {})
    + (if input.direction.None? then {DirectionInvalid} else {})
    + (if input.nth.None? || input.nth.value < 1 then {NthInvalid} else {})
  }

  datatype ShortestError = FromInvalid | ToInvalid | SameEndpoints

  /** ShortestNodeForm: two existing airports, which `clean` requires to differ. */
  function ShortestErrors(airports: seq<Airport>, from: Option<AirportId>, to: Option<AirportId>): (r: set<ShortestError>)
    ensures SameEndpoints in r <==> CleanAirport(airports, from).Some? && from == to
    ensures r == {} <==>
      from.Some? && from.value in AirportIds(airports) && to.Some? && to.value in AirportIds(airports) && from != to
  {
    var f := CleanAirport(airports, from);
    var t := CleanAirport(airports, to);
    (if f.None? then {FromInvalid} else {})
    + (if t.None? then {ToInvalid} else {})
    + (if f.Some? && t.Some? && f == t then {SameEndpoints} else {})
  }
}
