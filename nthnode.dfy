/**
  The "nth node" search: starting at an airport, follow the leg in one fixed
  direction (left or right) up to n times. Each step looks up the single leg
  leaving the current airport at that position; when there is none the walk
  stops and reports nothing found, otherwise it moves to the leg's
  destination and adds its duration to a running total. Every airport
  reached is recorded, with the step's duration and the running total.
 */
module NthNode {
  import opened Models

  /** The airport reached after all n steps, with the summed duration. */
  datatype Found = Found(airport: AirportId, totalDuration: nat)

  /** One row of the displayed path. The starting row carries no running total. */
  datatype PathEntry = PathEntry(airport: AirportId, duration: nat, totalDuration: Option<nat>)

  /** The leg leaving `from` at that position, None when there is none.
      With at most one leg per origin and position there is never more than
      one candidate (LookupFinds), so the first match is the only one. */
  function Lookup(routes: seq<Route>, from: AirportId, direction: Position): (r: Option<Route>)
    ensures r.Some? ==> r.value in routes && r.value.from == from && r.value.position == direction
  {
    Find(routes, (x: Route) => x.from == from && x.position == direction)
  }

  /** Lookup finds the one leg leaving `from` at that position, whenever there is one. */
  lemma LookupFinds(routes: seq<Route>, from: AirportId, direction: Position)
    requires PositionsUnique(routes)
    ensures Lookup(routes, from, direction).None? <==>
      forall x :: x in routes ==> !(x.from == from && x.position == direction)
    ensures forall x :: x in routes && x.from == from && x.position == direction ==>
      Lookup(routes, from, direction) == Some(x)
  {
  }

  /** The legs a walk of at most `n` steps follows from `from`: existing
      legs, all in the chosen direction. */
  function Walk(routes: seq<Route>, from: AirportId, direction: Position, n: nat): (legs: seq<Route>)
    ensures |legs| <= n
    ensures forall k :: 0 <= k < |legs| ==> legs[k] in routes && legs[k].position == direction
    decreases n
  {
    if n == 0 then []
    else
      match Lookup(routes, from, direction)
      case None => []
      case Some(r) => [r] + Walk(routes, r.to, direction, n - 1)
  }

  /** The walk follows existing legs, end to end, all in the chosen
      direction, and takes at most `n` of them. */
  lemma {:induction false} WalkFollowsDirection(routes: seq<Route>, from: AirportId, direction: Position, n: nat)
    ensures var legs := Walk(routes, from, direction, n);
      && |legs| <= n
      && IsPath(routes, from, legs)
      && forall k :: 0 <= k < |legs| ==> legs[k].position == direction
    decreases n
  {
    if n > 0 {
      match Lookup(routes, from, direction)
      case None =>
      case Some(r) =>
        var rest := Walk(routes, r.to, direction, n - 1);
        WalkFollowsDirection(routes, r.to, direction, n - 1);
        PathCons(routes, from, r, rest);
        assert forall k :: 0 < k <= |rest| ==> ([r] + rest)[k] == rest[k - 1];
    }
  }

  /** A walk shorter than `n` stopped because no leg leaves its last airport
      in the chosen direction. */
  lemma {:induction false} WalkStopsAtDeadEnd(routes: seq<Route>, from: AirportId, direction: Position, n: nat)
    ensures var legs := Walk(routes, from, direction, n);
      |legs| < n ==> Lookup(routes, End(from, legs), direction).None?
    decreases n
  {
    if n > 0 {
      match Lookup(routes, from, direction)
      case None =>
      case Some(r) =>
        var rest := Walk(routes, r.to, direction, n - 1);
        WalkStopsAtDeadEnd(routes, r.to, direction, n - 1);
        PathCons(routes, from, r, rest);
    }
  }

  /** Any path of at most `n` legs that keeps to the chosen direction is a
      prefix of the walk: with one leg per (origin, position) there is no
      other way to go. */
  lemma {:induction false} WalkIsOnlyWay(routes: seq<Route>, from: AirportId, direction: Position, n: nat, legs: seq<Route>)
    requires PositionsUnique(routes)
    requires IsPath(routes, from, legs) && |legs| <= n
    requires forall k :: 0 <= k < |legs| ==> legs[k].position == direction
    ensures var walk := Walk(routes, from, direction, n);
      |legs| <= |walk| && walk[..|legs|] == legs
    decreases n
  {
    if legs != [] {
      var r, rest := legs[0], legs[1..];
      assert legs == [r] + rest;
      PathCons(routes, from, r, rest);
      LookupFinds(routes, from, direction);
      assert Lookup(routes, from, direction) == Some(r);
      assert forall k :: 0 <= k < |rest| ==> rest[k] == legs[k + 1];
      WalkIsOnlyWay(routes, r.to, direction, n - 1, rest);
      var tail := Walk(routes, r.to, direction, n - 1);
      assert Walk(routes, from, direction, n) == [r] + tail;
      assert ([r] + tail)[..|legs|] == [r] + tail[..|rest|];
    }
  }

  /** No leg leaves `from` in the chosen direction: the walk goes nowhere. */
  lemma WalkDeadEnd(routes: seq<Route>, from: AirportId, direction: Position, k: nat)
    requires Lookup(routes, from, direction).None?
    ensures Walk(routes, from, direction, k) == []
  {
  }

  /** A leg leaves `from` in the chosen direction: the walk takes it first. */
  lemma WalkCons(routes: seq<Route>, from: AirportId, direction: Position, k: nat, r: Route)
    requires k > 0 && Lookup(routes, from, direction) == Some(r)
    ensures Walk(routes, from, direction, k) == [r] + Walk(routes, r.to, direction, k - 1)
  {
  }

  /** One step of WalkComposes: when composition holds after the first leg,
      it holds from `from`. */
  lemma WalkComposesStep(routes: seq<Route>, from: AirportId, direction: Position, n: nat, m: nat, r: Route)
    requires n > 0 && Lookup(routes, from, direction) == Some(r)
    requires var rest := Walk(routes, r.to, direction, n - 1);
      Walk(routes, r.to, direction, n - 1 + m) == rest + Walk(routes, End(r.to, rest), direction, m)
    ensures var first := Walk(routes, from, direction, n);
      Walk(routes, from, direction, n + m) == first + Walk(routes, End(from, first), direction, m)
  {
    var rest := Walk(routes, r.to, direction, n - 1);
    WalkCons(routes, from, direction, n, r);
    WalkCons(routes, from, direction, n + m, r);
    EndCons(from, r, rest);
    var after := Walk(routes, End(r.to, rest), direction, m);
    assert [r] + (rest + after) == ([r] + rest) + after;
  }

  /** Walking n + m steps is walking n steps and then m more from where
      those ended, so a long walk is a sequence of one-step walks. */
  lemma {:induction false} WalkComposes(routes: seq<Route>, from: AirportId, direction: Position, n: nat, m: nat)
    ensures var first := Walk(routes, from, direction, n);
      Walk(routes, from, direction, n + m) == first + Walk(routes, End(from, first), direction, m)
    decreases n
  {
    if n > 0 {
      var next := Lookup(routes, from, direction);
      if next.None? {
        // Stuck at once: every walk from here is empty.
        WalkDeadEnd(routes, from, direction, n);
        WalkDeadEnd(routes, from, direction, n + m);
        WalkDeadEnd(routes, from, direction, m);
      } else {
        WalkComposes(routes, next.value.to, direction, n - 1, m);
        WalkComposesStep(routes, from, direction, n, m, next.value);
      }
    }
  }

  /** The rows the search displays for the legs walked so far: the starting
      airport with no running total, then, for each leg, its destination, its
      duration and the running total up to and including it. */
  ghost predicate Rows(path: seq<PathEntry>, airport: AirportId, legs: seq<Route>)
    decreases |legs|
  {
    && |path| == |legs| + 1
    && if legs == [] then path == [PathEntry(airport, 0, None)]
       else
         var last := legs[|legs| - 1];
         && path[|path| - 1] == PathEntry(last.to, last.duration, Some(Total(legs)))
         && Rows(path[..|path| - 1], airport, legs[..|legs| - 1])
  }

  lemma RowsSnoc(path: seq<PathEntry>, airport: AirportId, legs: seq<Route>, r: Route)
    requires Rows(path, airport, legs)
    ensures Total(legs + [r]) == Total(legs) + r.duration
    ensures End(airport, legs + [r]) == r.to
    ensures Rows(path + [PathEntry(r.to, r.duration, Some(Total(legs) + r.duration))], airport, legs + [r])
  {
    var next := legs + [r];
    assert next[..|legs|] == legs;
    var rows := path + [PathEntry(r.to, r.duration, Some(Total(legs) + r.duration))];
    assert rows[..|path|] == path;
  }

  /** Row `k` shows the destination and duration of leg `k` and the running
      total of the first `k` legs. */
  lemma {:induction false} RowsAt(path: seq<PathEntry>, airport: AirportId, legs: seq<Route>)
    requires Rows(path, airport, legs)
    ensures |path| == |legs| + 1 && path[0] == PathEntry(airport, 0, None)
    ensures forall k :: 1 <= k < |path| ==>
      path[k] == PathEntry(legs[k - 1].to, legs[k - 1].duration, Some(Total(legs[..k])))
    decreases |legs|
  {
    if legs != [] {
      var init, rows := legs[..|legs| - 1], path[..|path| - 1];
      RowsAt(rows, airport, init);
      forall k | 1 <= k < |rows| ensures legs[..k] == init[..k] {
      }
      assert legs[..|legs|] == legs;
    }
  }

  /** The running totals of the displayed rows never decrease. */
  lemma RowsAccumulate(path: seq<PathEntry>, airport: AirportId, legs: seq<Route>)
    requires Rows(path, airport, legs)
    ensures forall j, k :: 1 <= j <= k < |path| ==>
      path[j].totalDuration.Some? && path[k].totalDuration.Some? && path[j].totalDuration.value <= path[k].totalDuration.value
  {
    RowsAt(path, airport, legs);
    forall j, k | 1 <= j <= k < |path|
      ensures path[j].totalDuration.Some? && path[j].totalDuration.value <= path[k].totalDuration.value
    {
      TotalPrefixMonotone(legs, j, k);
    }
  }

  /** One step of the walk: the leg found from `from` followed by the rest. */
  lemma WalkStep(routes: seq<Route>, from: AirportId, direction: Position, n: nat, legs: seq<Route>, r: Route)
    requires n > 0 && Lookup(routes, from, direction) == Some(r)
    ensures legs + Walk(routes, from, direction, n) == (legs + [r]) + Walk(routes, r.to, direction, n - 1)
  {
  }

  /** The loop of SearchNthNode.post. `result` is None when a step found no
      leg; `path` lists the starting airport and every airport reached. */
  method Search(routes: seq<Route>, airport: AirportId, direction: Position, n: nat)
    returns (result: Option<Found>, path: seq<PathEntry>)
    ensures var legs := Walk(routes, airport, direction, n);
      && (result.Some? <==> |legs| == n)
      && (result.Some? ==> result.value == Found(End(airport, legs), Total(legs)))
      && Rows(path, airport, legs)
    ensures forall j, k :: 1 <= j <= k < |path| ==>
      path[j].totalDuration.Some? && path[k].totalDuration.Some? && path[j].totalDuration.value <= path[k].totalDuration.value
  {
    var current := airport;
    var total := 0;
    path := [PathEntry(airport, 0, None)];
    ghost var legs: seq<Route> := [];
    var i := 0;
    var stuck := false;
    while i < n && !stuck
      invariant i <= n && |legs| == i
      invariant stuck ==> i < n && legs == Walk(routes, airport, direction, n)
      invariant !stuck ==> legs + Walk(routes, current, direction, n - i) == Walk(routes, airport, direction, n)
      invariant current == End(airport, legs) && total == Total(legs)
      invariant Rows(path, airport, legs)
      decreases n - i, if stuck then 0 else 1
    {
      var leg := Lookup(routes, current, direction);
      match leg
      case None =>
        stuck := true;
        assert legs + [] == legs;
      case Some(r) =>
        WalkStep(routes, current, direction, n - i, legs, r);
        RowsSnoc(path, airport, legs, r);
        current := r.to;
        total := total + r.duration;
        legs := legs + [r];
        path := path + [PathEntry(current, r.duration, Some(total))];
        i := i + 1;
    }
    if stuck {
      result := None;
    } else {
      assert legs + [] == legs;
      result := Some(Found(current, total));
    }
    RowsAccumulate(path, airport, legs);
  }
}
