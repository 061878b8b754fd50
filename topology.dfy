/**
  The committed state of the app: the airport table and the leg table, and
  the four operations that change them. Adding goes through the forms'
  validation; deleting goes through the guards of the delete views: an
  airport is removed only while no leg refers to it, a leg only while no leg
  names it as parent. Deleting the last parentless leg raises a warning but
  still goes ahead.
 */
module Topology {
  import opened Models
  import opened Forms

  // ---------------------------------------------------------------------------
  // Adding an airport (AirportForm)

  datatype AirportError = CodeRequired | CodeTooLong | CodeTaken | NameRequired | NameTooLong

  /** Field cleaning of `code` and `name`, then the `unique=True` check on a
      code that passed cleaning. */
  function AirportErrors(airports: seq<Airport>, code: string, name: string): (r: set<AirportError>)
    ensures CodeTaken in r <==> 0 < |code| <= CodeMaxLength && exists a :: a in airports && a.code == code
    ensures r == {} <==>
      && 0 < |code| <= CodeMaxLength && 0 < |name| <= NameMaxLength
      && forall a :: a in airports ==> a.code != code
  {
    var sameCode := Filter(airports, (a: Airport) => a.code == code);
    assert forall a :: a in airports && a.code == code ==> a in sameCode;
    (if |code| == 0 then {CodeRequired} else {})
    + (if |code| > CodeMaxLength then {CodeTooLong} else {})
    + (if 0 < |code| <= CodeMaxLength && |sameCode| > 0 then (assert sameCode[0] in sameCode; {CodeTaken}) else {})
    + (if |name| == 0 then {NameRequired} else {})
    + (if |name| > NameMaxLength then {NameTooLong} else {})
  }

  // ---------------------------------------------------------------------------
  // Queries the delete views make

  /** Whether some leg leaves or reaches airport `id`. */
  function Referenced(routes: seq<Route>, id: AirportId): (used: bool)
    ensures used <==> exists r :: r in routes && (r.from == id || r.to == id)
  {
    var users := Filter(routes, (r: Route) => r.from == id || r.to == id);
    assert forall r :: r in routes && (r.from == id || r.to == id) ==> r in users;
    if |users| > 0 then assert users[0] in users; true else false
  }

  /** The legs whose parent is leg `id`. */
  function Children(routes: seq<Route>, id: RouteId): (r: seq<Route>)
    ensures forall x :: x in r <==> x in routes && x.parent == Some(id)
  {
    Filter(routes, (x: Route) => x.parent == Some(id))
  }

  /** The warning of DeleteRouteView: the leg is parentless and the only
      parentless leg there is. */
  function RootRemoved(routes: seq<Route>, route: Route): (warn: bool)
    requires route in routes && RouteIdsIncreasing(routes)
    ensures warn <==> route.parent.None? && forall x :: x in routes && x.parent.None? ==> x == route
  {
    if route.parent.None? then
      LoneRoot(routes, route);
      |Roots(routes)| == 1
    else false
  }

  /** A parentless leg is the only one exactly when the parentless legs
      number one: primary keys keep them distinct. */
  lemma LoneRoot(routes: seq<Route>, route: Route)
    requires route in routes && RouteIdsIncreasing(routes) && route.parent.None?
    ensures |Roots(routes)| == 1 <==> forall x :: x in routes && x.parent.None? ==> x == route
  {
    var roots := Roots(routes);
    FilterKeepsIncreasing(routes, (x: Route) => x.parent.None?, RouteKey);
    assert route in roots;
    assert |roots| >= 2 ==> RouteKey(roots[0]) < RouteKey(roots[1]) && roots[0] in roots && roots[1] in roots;
    assert |roots| == 1 ==> roots[0] == route;
  }

  /** The airport table without airport `id`, in the same order. */
  function WithoutAirport(airports: seq<Airport>, id: AirportId): (r: seq<Airport>)
    ensures forall a :: a in r <==> a in airports && a.id != id
    ensures AirportIds(r) == AirportIds(airports) - {id}
  {
    Filter(airports, (a: Airport) => a.id != id)
  }

  /** The leg table without leg `id`, in the same order. */
  function WithoutRoute(routes: seq<Route>, id: RouteId): (r: seq<Route>)
    ensures forall x :: x in r <==> x in routes && x.id != id
  {
    Filter(routes, (x: Route) => x.id != id)
  }

  // ---------------------------------------------------------------------------
  // What the guards guarantee

  /** Saving an airport the form accepts, under a primary key above all
      existing ones, keeps the airport table valid and every foreign key
      pointing at an existing airport. */
  lemma AddAirportKeepsValid(airports: seq<Airport>, routes: seq<Route>, code: string, name: string, next: AirportId)
    requires AirportsValid(airports) && RoutesReferToAirports(airports, routes)
    requires forall a :: a in airports ==> a.id < next
    requires AirportErrors(airports, code, name) == {}
    ensures var airports' := airports + [Airport(next, code, name)];
      && AirportsValid(airports') && RoutesReferToAirports(airports', routes)
      && forall a :: a in airports' ==> a.id < next + 1
  {
    var airports' := airports + [Airport(next, code, name)];
    forall i, j | 0 <= i < j < |airports'| ensures AirportKey(airports'[i]) < AirportKey(airports'[j]) {
      if j < |airports| {
        assert airports'[i] == airports[i] && airports'[j] == airports[j];
      } else {
        assert airports'[i] in airports;
      }
    }
    assert AirportIds(airports) <= AirportIds(airports') by {
      forall id | id in AirportIds(airports) ensures id in AirportIds(airports') {
        var b :| b in airports && b.id == id;
        assert b in airports';
      }
    }
  }

  /** The leg table is a tree, its foreign keys name existing airports and
      its primary keys lie below `next`, the key the next leg receives. */
  ghost predicate LegsValid(airports: seq<Airport>, routes: seq<Route>, next: RouteId)
  {
    && TreeShape(routes)
    && RoutesReferToAirports(airports, routes)
    && forall r :: r in routes ==> r.id < next
  }

  /** Both tables valid, with every primary key below the next one handed out. */
  ghost predicate StateValid(airports: seq<Airport>, routes: seq<Route>, nextAirportId: AirportId, nextRouteId: RouteId)
  {
    && AirportsValid(airports)
    && (forall a :: a in airports ==> a.id < nextAirportId)
    && LegsValid(airports, routes, nextRouteId)
  }

  /** Saving a leg the form accepts, under a primary key above all existing
      ones, keeps the leg table valid. */
  lemma AddRouteKeepsValid(airports: seq<Airport>, routes: seq<Route>, input: RouteInput, next: RouteId)
    requires LegsValid(airports, routes, next)
    requires RouteErrors(airports, routes, input, None) == {}
    ensures LegsValid(airports, routes + [NewRoute(input, next)], next + 1)
  {
    AcceptedIffAdmissible(airports, routes, input, None);
    InsertKeepsTree(airports, routes, input, next);
  }

  /** Removing an airport no leg refers to keeps the airport table valid and
      every leg's foreign keys pointing at existing airports. */
  lemma RemoveAirportKeepsValid(airports: seq<Airport>, routes: seq<Route>, id: AirportId)
    requires AirportsValid(airports) && RoutesReferToAirports(airports, routes)
    requires !Referenced(routes, id)
    ensures AirportsValid(WithoutAirport(airports, id))
    ensures RoutesReferToAirports(WithoutAirport(airports, id), routes)
  {
    FilterKeepsIncreasing(airports, (a: Airport) => a.id != id, AirportKey);
  }

  /** Removing a leg that is nobody's parent keeps every tree invariant, the
      foreign keys valid and the primary keys below the next one. */
  lemma RemoveRouteKeepsValid(airports: seq<Airport>, routes: seq<Route>, id: RouteId, next: RouteId)
    requires LegsValid(airports, routes, next)
    requires Children(routes, id) == []
    ensures LegsValid(airports, WithoutRoute(routes, id), next)
  {
    RemoveRouteKeepsTree(routes, id);
  }

  /** Removing a leg that is nobody's parent keeps every tree invariant. */
  lemma RemoveRouteKeepsTree(routes: seq<Route>, id: RouteId)
    requires TreeShape(routes)
    requires Children(routes, id) == []
    ensures TreeShape(WithoutRoute(routes, id))
  {
    var rest := WithoutRoute(routes, id);
    FilterKeepsIncreasing(routes, (x: Route) => x.id != id, RouteKey);
    forall r | r in rest && r.parent.Some?
      ensures exists p :: p in rest && p.id == r.parent.value && p.id < r.id && p.to == r.from
    {
      var p :| p in routes && p.id == r.parent.value && p.id < r.id && p.to == r.from;
      assert r !in Children(routes, id);
      assert p in rest;
    }
  }

  /** Under the invariants, every leg other than a childless leg `x` has a
      chain of parents that ends at a parentless leg other than `x`. */
  lemma {:induction false} AnotherRootBesideChildless(routes: seq<Route>, x: Route, r: Route)
    requires TreeShape(routes)
    requires x in routes && Children(routes, x.id) == []
    requires r in routes && r != x
    ensures exists y :: y in Roots(routes) && y != x
    decreases r.id
  {
    if r.parent.None? {
      assert r in Roots(routes);
    } else {
      var p :| p in routes && p.id == r.parent.value && p.id < r.id && p.to == r.from;
      assert r in Children(routes, p.id);
      AnotherRootBesideChildless(routes, x, p);
    }
  }

  /** The warning "this will remove the entire route tree" can only fire
      when the leg being deleted is the last leg of all. */
  lemma RootWarningOnlyForLastLeg(routes: seq<Route>, x: Route)
    requires TreeShape(routes)
    requires x in routes && Children(routes, x.id) == [] && RootRemoved(routes, x)
    ensures routes == [x]
    ensures WithoutRoute(routes, x.id) == []
  {
    forall y | y in routes ensures y == x {
      if y != x {
        AnotherRootBesideChildless(routes, x, y);
        assert false;
      }
    }
    FilterAll(routes, (r: Route) => r.parent.None?);
    assert routes[0] in routes;
  }

  // ---------------------------------------------------------------------------
  // The committed state

  datatype AirportOutcome = AirportNotFound | AirportInUse | AirportDeleted

  datatype RouteOutcome = RouteNotFound | HasChildren(count: nat) | RouteDeleted(rootRemoved: bool)

  class Topology {
    /** The airport and leg tables, in primary-key order. */
    var airports: seq<Airport>
    var routes: seq<Route>
    /** The primary keys the database hands out next. */
    var nextAirportId: AirportId
    var nextRouteId: RouteId

    ghost predicate Valid()
      reads this
    {
      StateValid(airports, routes, nextAirportId, nextRouteId)
    }

    constructor ()
      ensures Valid() && airports == [] && routes == []
    {
      airports := [];
      routes := [];
      nextAirportId := 1;
      nextRouteId := 1;
    }

    /** AddAirportView: save the airport when AirportForm reports no error. */
    method AddAirport(code: string, name: string) returns (errors: set<AirportError>)
      requires Valid()
      modifies this
      ensures Valid()
      ensures errors == AirportErrors(old(airports), code, name)
      ensures airports == if errors == {} then old(airports) + [Airport(old(nextAirportId), code, name)] else old(airports)
      ensures errors == {} ==> nextAirportId == old(nextAirportId) + 1
      ensures errors != {} ==> nextAirportId == old(nextAirportId)
      ensures unchanged(this`routes, this`nextRouteId)
    {
      errors := AirportErrors(airports, code, name);
      if errors == {} {
        AddAirportKeepsValid(airports, routes, code, name, nextAirportId);
        airports := airports + [Airport(nextAirportId, code, name)];
        nextAirportId := nextAirportId + 1;
      }
    }

    /** DeleteAirportView.post: refused while any leg leaves or reaches the airport. */
    method DeleteAirport(id: AirportId) returns (outcome: AirportOutcome)
      requires Valid()
      modifies this
      ensures Valid()
      ensures outcome == AirportNotFound <==> id !in AirportIds(old(airports))
      ensures outcome == AirportInUse <==> id in AirportIds(old(airports)) && Referenced(old(routes), id)
      ensures airports == if outcome == AirportDeleted then WithoutAirport(old(airports), id) else old(airports)
      ensures unchanged(this`routes, this`nextAirportId, this`nextRouteId)
    {
      var airport := FindAirport(airports, id);
      if airport.None? {
        return AirportNotFound;
      }
      if Referenced(routes, id) {
        outcome := AirportInUse;
      } else {
        RemoveAirportKeepsValid(airports, routes, id);
        airports := WithoutAirport(airports, id);
        outcome := AirportDeleted;
      }
    }

    /** AddRouteView: save the leg when RouteForm reports no error. */
    method AddRoute(input: RouteInput) returns (errors: set<RouteError>, saved: Option<Route>)
      requires Valid()
      modifies this
      ensures Valid()
      ensures errors == RouteErrors(old(airports), old(routes), input, None)
      ensures saved.Some? <==> errors == {}
      ensures saved.Some? ==> saved.value == NewRoute(input, old(nextRouteId))
      ensures routes == if saved.Some? then old(routes) + [saved.value] else old(routes)
      ensures saved.Some? ==> nextRouteId == old(nextRouteId) + 1
      ensures saved.None? ==> nextRouteId == old(nextRouteId)
      ensures unchanged(this`airports, this`nextAirportId)
    {
      errors := RouteErrors(airports, routes, input, None);
      if errors == {} {
        AddRouteKeepsValid(airports, routes, input, nextRouteId);
        var leg := NewRoute(input, nextRouteId);
        assert StateValid(airports, routes + [leg], nextAirportId, nextRouteId + 1);
        routes, nextRouteId := routes + [leg], nextRouteId + 1;
        saved := Some(leg);
      } else {
        saved := None;
      }
    }

    /** DeleteRouteView.post: refused, with the child count, while the leg has
        children; otherwise deleted, with the root warning when it was the
        only parentless leg. */
    method DeleteRoute(id: RouteId) returns (outcome: RouteOutcome)
      requires Valid()
      modifies this
      ensures Valid()
      ensures outcome == RouteNotFound <==> forall x :: x in old(routes) ==> x.id != id
      ensures outcome.HasChildren? <==>
        (exists x :: x in old(routes) && x.id == id) && |Children(old(routes), id)| > 0
      ensures outcome.HasChildren? ==> outcome.count == |Children(old(routes), id)|
      ensures outcome.RouteDeleted? ==>
        && routes == WithoutRoute(old(routes), id)
        && exists x :: x in old(routes) && x.id == id && outcome.rootRemoved == RootRemoved(old(routes), x)
      ensures !outcome.RouteDeleted? ==> routes == old(routes)
      ensures unchanged(this`airports, this`nextAirportId, this`nextRouteId)
    {
      var route := FindRoute(routes, id);
      if route.None? {
        return RouteNotFound;
      }
      var children := Children(routes, id);
      if |children| > 0 {
        return HasChildren(|children|);
      }
      var warn := RootRemoved(routes, route.value);
      RemoveRouteKeepsValid(airports, routes, id, nextRouteId);
      routes := WithoutRoute(routes, id);
      outcome := RouteDeleted(warn);
    }
  }
}
