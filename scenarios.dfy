/**
  Concrete situations, with airports A = 1, B = 2, C = 3 and D = 4.
 */
module Scenarios {
  import opened Models
  import opened Forms
  import NthNode
  import ShortestNode

  const Airports4: seq<Airport> :=
    [Airport(1, "A", "Alpha"), Airport(2, "B", "Bravo"), Airport(3, "C", "Charlie"), Airport(4, "D", "Delta")]

  /** With the root leg A -> B in place, a leg A -> C whose parent is A -> B
      is refused: it does not leave where its parent arrives. */
  lemma ChildMustLeaveParentDestination()
    ensures var routes := [Route(1, 1, 2, Left, 10, None)];
      ParentMismatch in RouteErrors(Airports4, routes, RouteInput(Some(1), Some(3), Some(Right), Some(20), Some(1)), None)
  {
    var routes := [Route(1, 1, 2, Left, 10, None)];
    var input := RouteInput(Some(1), Some(3), Some(Right), Some(20), Some(1));
    assert routes[0] in routes;
    assert 1 in AirportIds(Airports4) by { assert Airports4[0] in Airports4; }
    assert Clean(Airports4, routes, input).parent == Some(routes[0]);
  }

  /** The form accepts a leg B -> A under the root leg A -> B: nothing in it
      keeps the airports from forming a cycle. */
  lemma CycleAccepted()
    ensures var airports := [Airport(1, "A", "Alpha"), Airport(2, "B", "Bravo")];
      var routes := [Route(1, 1, 2, Left, 10, None)];
      RouteErrors(airports, routes, RouteInput(Some(2), Some(1), Some(Left), Some(10), Some(1)), None) == {}
  {
    var airports := [Airport(1, "A", "Alpha"), Airport(2, "B", "Bravo")];
    var routes := [Route(1, 1, 2, Left, 10, None)];
    var input := RouteInput(Some(2), Some(1), Some(Left), Some(10), Some(1));
    assert airports[0] in airports && airports[1] in airports;
    assert routes[0] in routes;
    var data := Clean(airports, routes, input);
    assert data.parent == Some(routes[0]);
    assert forall x :: x in routes ==> x == routes[0];
    assert CleanErrors(routes, data, None) == {};
  }

  /** Two steps left from A along A -> B (10) and B -> D (5) reach D in 15 minutes. */
  lemma WalkTwoLeft()
    ensures var routes := [Route(1, 1, 2, Left, 10, None), Route(2, 2, 4, Left, 5, Some(1))];
      var legs := NthNode.Walk(routes, 1, Left, 2);
      |legs| == 2 && End(1, legs) == 4 && Total(legs) == 15
  {
    var routes := [Route(1, 1, 2, Left, 10, None), Route(2, 2, 4, Left, 5, Some(1))];
    assert NthNode.Lookup(routes, 1, Left) == Some(routes[0]);
    assert NthNode.Lookup(routes, 2, Left) == Some(routes[1]);
    assert NthNode.Walk(routes, 4, Left, 0) == [];
    var legs := NthNode.Walk(routes, 1, Left, 2);
    assert legs == [routes[0], routes[1]];
    assert legs[..1] == [routes[0]] && [routes[0]][..0] == [];
  }

  /** With A -> B (10), A -> C (20) and B -> D (5), the search from A to D
      answers A, B, D in 15 minutes. */
  lemma ShortestAtoD(f: ShortestNode.Found)
    requires ShortestNode.Answers(
      [Route(1, 1, 2, Left, 10, None), Route(2, 1, 3, Right, 20, None), Route(3, 2, 4, Left, 5, Some(1))], 1, 4, f)
    ensures f.path == [1, 2, 4] && f.totalDuration == 15
  {
    var routes := [Route(1, 1, 2, Left, 10, None), Route(2, 1, 3, Right, 20, None), Route(3, 2, 4, Left, 5, Some(1))];
    var two := [routes[0], routes[2]];
    PathCons(routes, 1, routes[0], [routes[2]]);
    PathCons(routes, 2, routes[2], []);
    assert two == [routes[0]] + [routes[2]] && [routes[2]] == [routes[2]] + [];
    assert |f.details| <= 2;
    var d := f.details;
    assert d != [];
    PathCons(routes, 1, d[0], d[1..]);
    assert d == [d[0]] + d[1..];
    assert d[1..] != [];
    assert d[1..] == [d[1]] + [];
    PathCons(routes, d[0].to, d[1], []);
    assert d[1] == routes[2];
    assert d == two;
    assert two[..1] == [routes[0]] && [routes[0]][..0] == [];
    assert Total([routes[0]]) == 10;
  }
}
