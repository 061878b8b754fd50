/**
  The shortest-node search between two airports: a breadth-first search over
  the legs. The queue holds candidate journeys (airport reached, summed
  duration, airports passed, legs taken). An airport is marked visited when a
  journey to it is taken off the queue, not when it is queued, so the same
  airport may be queued more than once; a journey ending at the target is
  returned as soon as it reaches the front. The journey returned has the
  fewest legs of all journeys to the target. It need not have the least
  summed duration.
 */
module ShortestNode {
  import opened Models

  /** One queue entry: `(current, duration, path, details)`. */
  datatype Item = Item(node: AirportId, duration: nat, path: seq<AirportId>, legs: seq<Route>)

  /** The search's answer: summed duration, airports passed, legs taken. */
  datatype Found = Found(totalDuration: nat, path: seq<AirportId>, details: seq<Route>)

  /** The airports a journey passes, from `start` to its end. */
  function Airports(start: AirportId, legs: seq<Route>): (r: seq<AirportId>)
    ensures |r| == |legs| + 1
    ensures forall k :: 0 <= k <= |legs| ==> r[k] == NodeAt(start, legs, k)
  {
    if legs == [] then [start]
    else
      var init := legs[..|legs| - 1];
      assert forall k :: 0 <= k <= |init| ==> NodeAt(start, init, k) == NodeAt(start, legs, k);
      Airports(start, init) + [legs[|legs| - 1].to]
  }

  /** Every airport the search could ever reach. */
  function Nodes(routes: seq<Route>, start: AirportId): set<AirportId>
  {
    {start} + set r | r in routes :: r.to
  }

  /** An item describes a journey from `start` along existing legs. */
  ghost predicate ItemValid(routes: seq<Route>, start: AirportId, y: Item)
  {
    && IsPath(routes, start, y.legs)
    && y.node == End(start, y.legs)
    && y.path == Airports(start, y.legs)
    && y.duration == Total(y.legs)
  }

  /** The journey `x` extended by leg `r`. */
  function Next(x: Item, r: Route): Item
  {
    Item(r.to, x.duration + r.duration, x.path + [r.to], x.legs + [r])
  }

  /** The legs leaving airport `node`, in primary-key order. */
  function Outgoing(routes: seq<Route>, node: AirportId): (r: seq<Route>)
    ensures forall x :: x in r <==> x in routes && x.from == node
  {
    Filter(routes, (x: Route) => x.from == node)
  }

  /** The items the inner loop appends for `outs`: one per leg whose
      destination is not yet visited, in the order of `outs`. */
  function Successors(visited: set<AirportId>, x: Item, outs: seq<Route>): seq<Item>
  {
    if outs == [] then []
    else
      var r := outs[|outs| - 1];
      Successors(visited, x, outs[..|outs| - 1]) + (if r.to !in visited then [Next(x, r)] else [])
  }

  lemma {:induction false} SuccessorsMembers(visited: set<AirportId>, x: Item, outs: seq<Route>)
    ensures forall y :: y in Successors(visited, x, outs) <==>
      exists r :: r in outs && r.to !in visited && y == Next(x, r)
  {
    if outs != [] {
      var init := outs[..|outs| - 1];
      SuccessorsMembers(visited, x, init);
      assert outs == init + [outs[|outs| - 1]];
    }
  }

  /** Extending a valid journey by a leg leaving its end gives a valid journey. */
  lemma NextValid(routes: seq<Route>, start: AirportId, x: Item, r: Route)
    requires ItemValid(routes, start, x)
    requires r in routes && r.from == x.node
    ensures ItemValid(routes, start, Next(x, r)) && |Next(x, r).legs| == |x.legs| + 1
  {
    PathSnoc(routes, start, x.legs, r);
    var legs := x.legs + [r];
    assert legs[..|legs| - 1] == x.legs;
  }

  lemma EndInNodes(routes: seq<Route>, start: AirportId, legs: seq<Route>)
    requires IsPath(routes, start, legs)
    ensures End(start, legs) in Nodes(routes, start)
  {
    if legs != [] {
      PathPrefix(routes, start, legs, |legs| - 1);
    }
  }

  // ---------------------------------------------------------------------------
  // The loop invariant

  /** Some journey along existing legs leads from `start` to `end`. */
  ghost predicate Reachable(routes: seq<Route>, start: AirportId, end: AirportId)
  {
    exists legs :: IsPath(routes, start, legs) && End(start, legs) == end
  }

  /** What a returned answer promises: a journey along existing legs from
      `start` to `end`, with the airports it passes and its summed duration,
      and no journey to `end` has fewer legs. */
  ghost predicate Answers(routes: seq<Route>, start: AirportId, end: AirportId, f: Found)
  {
    && IsPath(routes, start, f.details)
    && End(start, f.details) == end
    && f.path == Airports(start, f.details)
    && f.totalDuration == Total(f.details)
    && forall legs :: IsPath(routes, start, legs) && End(start, legs) == end ==> |f.details| <= |legs|
  }


  /** The number of legs of a queued journey. */
  function Hops(y: Item): nat
  {
    |y.legs|
  }

  /** Every queued item describes a journey from `start`. */
  ghost predicate ItemsValid(routes: seq<Route>, start: AirportId, queue: seq<Item>)
  {
    forall y :: y in queue ==> ItemValid(routes, start, y)
  }

  /** Hop counts along the queue never decrease. */
  ghost predicate HopsSorted(queue: seq<Item>)
  {
    forall i, j :: 0 <= i < j < |queue| ==> Hops(queue[i]) <= Hops(queue[j])
  }

  /** Every queued journey has `lo` or `lo + 1` legs. */
  ghost predicate HopsBetween(queue: seq<Item>, lo: nat)
  {
    forall i :: 0 <= i < |queue| ==> lo <= Hops(queue[i]) <= lo + 1
  }

  /** Every journey of fewer than `level` legs ends at a visited airport. */
  ghost predicate Below(routes: seq<Route>, start: AirportId, visited: set<AirportId>, level: nat)
  {
    forall legs :: IsPath(routes, start, legs) && |legs| < level ==> End(start, legs) in visited
  }

  /** Every journey of exactly `level` legs ends at a visited airport or has
      an item of that length for its end queued. */
  ghost predicate AtLevel(routes: seq<Route>, start: AirportId, queue: seq<Item>, visited: set<AirportId>, level: nat)
  {
    forall legs :: IsPath(routes, start, legs) && |legs| == level ==>
      End(start, legs) in visited || exists y :: y in queue && y.node == End(start, legs) && Hops(y) == level
  }

  /** Every leg from a visited to an unvisited airport has an item for its
      destination queued. */
  ghost predicate Frontier(routes: seq<Route>, queue: seq<Item>, visited: set<AirportId>)
  {
    forall r :: r in routes && r.from in visited && r.to !in visited ==> exists y :: y in queue && y.node == r.to
  }

  /** `level` is the hop count of the front item. */
  ghost predicate Inv(routes: seq<Route>, start: AirportId, end: AirportId,
                      queue: seq<Item>, visited: set<AirportId>, level: nat)
  {
    && ItemsValid(routes, start, queue)
    && HopsSorted(queue)
    && HopsBetween(queue, level)
    && (queue != [] ==> Hops(queue[0]) == level)
    && end !in visited
    && Below(routes, start, visited, level)
    && AtLevel(routes, start, queue, visited, level)
    && Frontier(routes, queue, visited)
  }

  /** The hop count of the new front, or the old level once the queue is empty. */
  ghost function Front(queue: seq<Item>, level: nat): nat
  {
    if queue == [] then level else Hops(queue[0])
  }

  lemma InvInit(routes: seq<Route>, start: AirportId, end: AirportId)
    ensures Inv(routes, start, end, [Item(start, 0, [start], [])], {}, 0)
  {
    var y := Item(start, 0, [start], []);
    assert ItemValid(routes, start, y);
    forall legs: seq<Route> | IsPath(routes, start, legs) && |legs| == 0
      ensures exists y :: y in [Item(start, 0, [start], [])] && y.node == End(start, legs) && Hops(y) == 0
    {
      assert legs == [];
    }
  }

  lemma SortedAfterStep(queue: seq<Item>, more: seq<Item>, level: nat)
    requires queue != [] && HopsSorted(queue) && HopsBetween(queue, level)
    requires forall i :: 0 <= i < |more| ==> Hops(more[i]) == level + 1
    ensures HopsSorted(queue[1..] + more) && HopsBetween(queue[1..] + more, level)
  {
    var rest := queue[1..];
    var q := rest + more;
    forall i | 0 <= i < |q| ensures level <= Hops(q[i]) <= level + 1 {
      if i < |rest| {
        assert q[i] == queue[i + 1];
      } else {
        assert q[i] == more[i - |rest|];
      }
    }
    forall i, j | 0 <= i < j < |q| ensures Hops(q[i]) <= Hops(q[j]) {
      if j < |rest| {
        assert q[i] == queue[i + 1] && q[j] == queue[j + 1];
      } else {
        assert q[j] == more[j - |rest|];
      }
    }
  }

  lemma BetweenAfterStep(q: seq<Item>, level: nat)
    requires HopsSorted(q) && HopsBetween(q, level)
    ensures HopsBetween(q, Front(q, level))
    ensures level <= Front(q, level) <= level + 1
  {
    if q != [] {
      assert level <= Hops(q[0]) <= level + 1;
      forall i | 0 <= i < |q| ensures Front(q, level) <= Hops(q[i]) {
        if i > 0 {
          assert Hops(q[0]) <= Hops(q[i]);
        }
      }
    }
  }

  /** Legs from visited to unvisited airports still have an item queued. */
  lemma FrontierAfterStep(routes: seq<Route>, queue: seq<Item>, visited: set<AirportId>, more: seq<Item>)
    requires queue != [] && Frontier(routes, queue, visited)
    requires queue[0].node !in visited ==>
      forall r :: r in routes && r.from == queue[0].node && r.to !in visited + {queue[0].node} ==>
        exists y :: y in more && y.node == r.to
    ensures Frontier(routes, queue[1..] + more, visited + {queue[0].node})
  {
    var x, rest := queue[0], queue[1..];
    var q := rest + more;
    var v := visited + {x.node};
    assert queue == [x] + rest;
    forall r | r in routes && r.from in v && r.to !in v ensures exists y :: y in q && y.node == r.to {
      if r.from in visited {
        var y: Item :| y in queue && y.node == r.to;
        assert y in q;
      } else {
        var y: Item :| y in more && y.node == r.to;
        assert y in q;
      }
    }
  }

  /** Once the front moves on to the next hop count, every journey of the old
      count ends at a visited airport. */
  lemma BelowAfterStep(routes: seq<Route>, start: AirportId, queue: seq<Item>, visited: set<AirportId>,
                       level: nat, more: seq<Item>)
    requires queue != [] && Hops(queue[0]) == level
    requires Below(routes, start, visited, level) && AtLevel(routes, start, queue, visited, level)
    requires var q := queue[1..] + more;
      && HopsBetween(q, Front(q, level))
      && level <= Front(q, level) <= level + 1
    ensures var q := queue[1..] + more;
      Below(routes, start, visited + {queue[0].node}, Front(q, level))
  {
    var x, rest := queue[0], queue[1..];
    var q := rest + more;
    var v := visited + {x.node};
    assert queue == [x] + rest;
    forall y | y in q ensures Front(q, level) <= Hops(y) {
      var i :| 0 <= i < |q| && q[i] == y;
    }
    assert forall y :: y in queue ==> y == x || y in q;
  }

  lemma AtLevelAfterStep(routes: seq<Route>, start: AirportId, queue: seq<Item>, visited: set<AirportId>,
                         level: nat, more: seq<Item>)
    requires queue != [] && Hops(queue[0]) == level
    requires AtLevel(routes, start, queue, visited, level)
    requires var q := queue[1..] + more; var v := visited + {queue[0].node};
      && Below(routes, start, v, Front(q, level))
      && Frontier(routes, q, v)
      && HopsBetween(q, level)
      && level <= Front(q, level) <= level + 1
      && HopsBetween(q, Front(q, level))
    ensures var q := queue[1..] + more;
      AtLevel(routes, start, q, visited + {queue[0].node}, Front(q, level))
  {
    var x, rest := queue[0], queue[1..];
    var q := rest + more;
    var v := visited + {x.node};
    var next := Front(q, level);
    assert queue == [x] + rest;
    forall legs: seq<Route> | IsPath(routes, start, legs) && |legs| == next
      ensures End(start, legs) in v || exists y :: y in q && y.node == End(start, legs) && Hops(y) == next
    {
      if End(start, legs) !in v {
        if next == level {
          var y: Item :| y in queue && y.node == End(start, legs) && Hops(y) == level;
          assert y in q;
        } else {
          var k := |legs| - 1;
          PathPrefix(routes, start, legs, k);
          assert End(start, legs[..k]) in v;
          var y: Item :| y in q && y.node == legs[k].to;
          var i :| 0 <= i < |q| && q[i] == y;
        }
      }
    }
  }

  /** Taking the front item off the queue, marking its airport visited and
      appending `more` keeps the invariant, provided `more` holds valid
      journeys one leg longer and, when the airport was not visited before,
      an item for every unvisited destination of a leg leaving it. */
  lemma AdvanceKeepsInv(routes: seq<Route>, start: AirportId, end: AirportId,
                        queue: seq<Item>, visited: set<AirportId>, level: nat, more: seq<Item>)
    requires Inv(routes, start, end, queue, visited, level) && queue != []
    requires queue[0].node != end
    requires ItemsValid(routes, start, more)
    requires forall i :: 0 <= i < |more| ==> Hops(more[i]) == level + 1
    requires queue[0].node !in visited ==>
      forall r :: r in routes && r.from == queue[0].node && r.to !in visited + {queue[0].node} ==>
        exists y :: y in more && y.node == r.to
    ensures var q := queue[1..] + more;
      Inv(routes, start, end, q, visited + {queue[0].node}, Front(q, level))
  {
    var q := queue[1..] + more;
    assert ItemsValid(routes, start, q) by {
      assert queue == [queue[0]] + queue[1..];
    }
    SortedAfterStep(queue, more, level);
    BetweenAfterStep(q, level);
    FrontierAfterStep(routes, queue, visited, more);
    BelowAfterStep(routes, start, queue, visited, level, more);
    AtLevelAfterStep(routes, start, queue, visited, level, more);
  }

  /** Skipping a front airport that is already visited. */
  lemma SkipKeepsInv(routes: seq<Route>, start: AirportId, end: AirportId,
                     queue: seq<Item>, visited: set<AirportId>, level: nat)
    requires Inv(routes, start, end, queue, visited, level) && queue != []
    requires queue[0].node != end && queue[0].node in visited
    ensures Inv(routes, start, end, queue[1..], visited, Front(queue[1..], level))
  {
    AdvanceKeepsInv(routes, start, end, queue, visited, level, []);
    assert queue[1..] + [] == queue[1..];
    assert visited + {queue[0].node} == visited;
  }

  /** Visiting the front airport: mark it visited and queue one journey per
      leg leaving it towards an unvisited airport. */
  lemma ExpandKeepsInv(routes: seq<Route>, start: AirportId, end: AirportId,
                       queue: seq<Item>, visited: set<AirportId>, level: nat)
    requires Inv(routes, start, end, queue, visited, level) && queue != []
    requires queue[0].node != end && queue[0].node !in visited
    ensures var x := queue[0]; var v := visited + {x.node};
      var q := queue[1..] + Successors(v, x, Outgoing(routes, x.node));
      Inv(routes, start, end, q, v, Front(q, level))
  {
    var x := queue[0];
    var v := visited + {x.node};
    var outs := Outgoing(routes, x.node);
    var more := Successors(v, x, outs);
    assert x in queue;
    SuccessorsMembers(v, x, outs);
    forall y | y in more ensures ItemValid(routes, start, y) && Hops(y) == level + 1 {
      var r :| r in outs && r.to !in v && y == Next(x, r);
      NextValid(routes, start, x, r);
    }
    forall i | 0 <= i < |more| ensures Hops(more[i]) == level + 1 {
      assert more[i] in more;
    }
    forall r | r in routes && r.from == x.node && r.to !in v ensures exists y :: y in more && y.node == r.to {
      assert r in outs;
      assert Next(x, r) in more;
    }
    AdvanceKeepsInv(routes, start, end, queue, visited, level, more);
  }

  /** The front item reaches the target with the fewest legs possible. */
  lemma InvAtTarget(routes: seq<Route>, start: AirportId, end: AirportId,
                    queue: seq<Item>, visited: set<AirportId>, level: nat)
    requires Inv(routes, start, end, queue, visited, level) && queue != []
    requires queue[0].node == end
    ensures var x := queue[0]; Answers(routes, start, end, Found(x.duration, x.path, x.legs))
    ensures Reachable(routes, start, end)
  {
    assert queue[0] in queue;
  }

  /** Visiting an unvisited front airport leaves fewer airports to visit. */
  lemma VisitShrinks(routes: seq<Route>, start: AirportId, end: AirportId,
                     queue: seq<Item>, visited: set<AirportId>, level: nat)
    requires Inv(routes, start, end, queue, visited, level) && queue != []
    requires queue[0].node !in visited
    ensures Nodes(routes, start) - (visited + {queue[0].node}) < Nodes(routes, start) - visited
  {
    assert queue[0] in queue;
    EndInNodes(routes, start, queue[0].legs);
    assert queue[0].node in Nodes(routes, start) - visited;
  }

  /** With the queue empty, every airport a journey reaches is visited. */
  lemma {:induction false} InvAtEmpty(routes: seq<Route>, start: AirportId, end: AirportId,
                                      visited: set<AirportId>, level: nat, legs: seq<Route>)
    requires Inv(routes, start, end, [], visited, level)
    requires IsPath(routes, start, legs)
    ensures End(start, legs) in visited
    decreases |legs|
  {
    if |legs| > level {
      var k := |legs| - 1;
      PathPrefix(routes, start, legs, k);
      InvAtEmpty(routes, start, end, visited, level, legs[..k]);
    }
  }

  /** With the queue empty, no journey reaches the target. */
  lemma UnreachableAtEmpty(routes: seq<Route>, start: AirportId, end: AirportId,
                           visited: set<AirportId>, level: nat)
    requires Inv(routes, start, end, [], visited, level)
    ensures !Reachable(routes, start, end)
  {
    forall legs: seq<Route> | IsPath(routes, start, legs) ensures End(start, legs) != end {
      InvAtEmpty(routes, start, end, visited, level, legs);
    }
  }

  // ---------------------------------------------------------------------------
  // The search

  /** The inner loop over the legs leaving the visited airport. */
  method AppendSuccessors(queue: seq<Item>, visited: set<AirportId>, x: Item, outs: seq<Route>)
    returns (q: seq<Item>)
    ensures q == queue + Successors(visited, x, outs)
  {
    q := queue;
    var j := 0;
    while j < |outs|
      invariant 0 <= j <= |outs|
      invariant q == queue + Successors(visited, x, outs[..j])
    {
      var r := outs[j];
      if r.to !in visited {
        q := q + [Next(x, r)];
      }
      assert outs[..j + 1][..j] == outs[..j];
      j := j + 1;
    }
    assert outs[..|outs|] == outs;
  }

  /** ShortestNode.bfs_shortest_path. */
  method BfsShortestPath(routes: seq<Route>, start: AirportId, end: AirportId) returns (result: Option<Found>)
    ensures result.Some? ==> Answers(routes, start, end, result.value)
    ensures result.None? <==> !Reachable(routes, start, end)
  {
    var queue := [Item(start, 0, [start], [])];
    var visited: set<AirportId> := {};
    ghost var level: nat := 0;
    InvInit(routes, start, end);
    while queue != []
      invariant Inv(routes, start, end, queue, visited, level)
      decreases Nodes(routes, start) - visited, |queue|
    {
      var x := queue[0];
      var rest := queue[1..];
      if x.node == end {
        InvAtTarget(routes, start, end, queue, visited, level);
        return Some(Found(x.duration, x.path, x.legs));
      }
      if x.node in visited {
        SkipKeepsInv(routes, start, end, queue, visited, level);
        queue := rest;
        level := Front(queue, level);
        continue;
      }
      VisitShrinks(routes, start, end, queue, visited, level);
      ExpandKeepsInv(routes, start, end, queue, visited, level);
      visited := visited + {x.node};
      var outs := Outgoing(routes, x.node);
      queue := AppendSuccessors(rest, visited, x, outs);
      level := Front(queue, level);
    }
    UnreachableAtEmpty(routes, start, end, visited, level);
    return None;
  }

  /** Fewest legs is not least duration: with legs 1 -> 2 and 2 -> 3 of 10
      minutes each and a direct leg 1 -> 3 of 100 minutes, every answer the
      search can give from 1 to 3 takes 100 minutes, although 20 would do. */
  lemma FewestHopsNotLeastDuration(f: Found)
    requires Answers([Route(1, 1, 2, Left, 10, None), Route(2, 2, 3, Left, 10, Some(1)), Route(3, 1, 3, Right, 100, None)], 1, 3, f)
    ensures f.totalDuration == 100
    ensures var slow := [Route(1, 1, 2, Left, 10, None), Route(2, 2, 3, Left, 10, Some(1))];
      IsPath([Route(1, 1, 2, Left, 10, None), Route(2, 2, 3, Left, 10, Some(1)), Route(3, 1, 3, Right, 100, None)], 1, slow)
      && End(1, slow) == 3 && Total(slow) == 20
  {
    var routes := [Route(1, 1, 2, Left, 10, None), Route(2, 2, 3, Left, 10, Some(1)), Route(3, 1, 3, Right, 100, None)];
    var direct := [routes[2]];
    PathCons(routes, 1, routes[2], []);
    assert direct == [routes[2]] + [];
    assert |f.details| <= 1;
    var leg := f.details[0];
    assert f.details == [leg] + [];
    PathCons(routes, 1, leg, []);
    assert leg == routes[2];
    var slow := [routes[0], routes[1]];
    PathCons(routes, 1, routes[0], [routes[1]]);
    PathCons(routes, 2, routes[1], []);
    assert slow == [routes[0]] + [routes[1]] && [routes[1]] == [routes[1]] + [];
    assert slow[..1] == [routes[0]] && [routes[0]][..0] == [];
    assert Total([routes[0]]) == 10;
    assert Total(slow) == 20;
  }
}
