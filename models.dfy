/**
  Record shapes of the airport-route app: airports, and the directed,
  duration-weighted legs ("routes") between them, with the constraints the
  models declare (unique airport code, bounded field lengths, a position that
  is left or right, a non-negative duration, at most one leg per origin and
  position, an optional parent leg).

  Records refer to each other by integer primary key. A collection of records
  is a sequence kept in primary-key order, which is the order the database
  hands rows back when a query names no ordering.
 */
module Models {

  datatype Option<T> = None | Some(value: T)

  type AirportId = nat
  type RouteId = nat

  /** The most characters an airport's code and name may hold. */
  const CodeMaxLength: nat := 10
  const NameMaxLength: nat := 200

  /** The largest duration the model's range check admits: the upper end of
      the 32-bit range Django's default table gives a positive integer field. */
  const DurationMax: nat := 2147483647

  datatype Airport = Airport(id: AirportId, code: string, name: string)

  /** The two `SIDE_CHOICES` of a leg. */
  datatype Position = Left | Right

  /** A leg `from -> to`; `duration` is a PositiveIntegerField, which admits 0. */
  datatype Route = Route(
    id: RouteId,
    from: AirportId,
    to: AirportId,
    position: Position,
    duration: nat,
    parent: Option<RouteId>)

  // ---------------------------------------------------------------------------
  // Queries over a table: filtering and first match

  /** The rows of `s` that satisfy `keep`, in their original order. */
  function Filter<T(!new)>(s: seq<T>, keep: T -> bool): (r: seq<T>)
    ensures |r| <= |s|
    ensures forall x :: x in r <==> x in s && keep(x)
  {
    if s == [] then []
    else (if keep(s[0]) then [s[0]] else []) + Filter(s[1..], keep)
  }

  /** `key` strictly increases along `s`. */
  ghost predicate Increasing<T>(s: seq<T>, key: T -> nat)
  {
    forall i, j :: 0 <= i < j < |s| ==> key(s[i]) < key(s[j])
  }

  /** Filtering keeps a strictly increasing key strictly increasing. */
  lemma {:induction false} FilterKeepsIncreasing<T(!new)>(s: seq<T>, keep: T -> bool, key: T -> nat)
    requires Increasing(s, key)
    ensures Increasing(Filter(s, keep), key)
  {
    if s != [] {
      var tail := s[1..];
      forall i, j | 0 <= i < j < |tail| ensures key(tail[i]) < key(tail[j]) {
        assert tail[i] == s[i + 1] && tail[j] == s[j + 1];
      }
      FilterKeepsIncreasing(tail, keep, key);
      var rt := Filter(tail, keep);
      var r := Filter(s, keep);
      if keep(s[0]) {
        assert r == [s[0]] + rt;
        forall i, j | 0 <= i < j < |r| ensures key(r[i]) < key(r[j]) {
          assert r[j] == rt[j - 1] && rt[j - 1] in rt;
          var k :| 0 <= k < |tail| && tail[k] == rt[j - 1];
          assert s[k + 1] == r[j];
          if i > 0 {
            assert r[i] == rt[i - 1];
          }
        }
      } else {
        assert r == rt;
      }
    }
  }

  /** A filter every row passes returns the rows unchanged. */
  lemma {:induction false} FilterAll<T(!new)>(s: seq<T>, keep: T -> bool)
    requires forall x :: x in s ==> keep(x)
    ensures Filter(s, keep) == s
  {
    if s != [] {
      assert forall x :: x in s[1..] ==> x in s;
      FilterAll(s[1..], keep);
    }
  }

  /** The first row of `s` that satisfies `p`, if any. */
  function Find<T(!new)>(s: seq<T>, p: T -> bool): (r: Option<T>)
    ensures r.Some? ==> r.value in s && p(r.value)
    ensures r.None? ==> forall x :: x in s ==> !p(x)
  {
    if s == [] then None
    else if p(s[0]) then Some(s[0])
    else Find(s[1..], p)
  }

  // ---------------------------------------------------------------------------
  // Lookups by primary key

  function AirportIds(airports: seq<Airport>): set<AirportId>
  {
    set a | a in airports :: a.id
  }

  function RouteIds(routes: seq<Route>): set<RouteId>
  {
    set r | r in routes :: r.id
  }

  /** The airport with primary key `id`; None when there is none. */
  function FindAirport(airports: seq<Airport>, id: AirportId): (r: Option<Airport>)
    ensures r.Some? ==> r.value in airports && r.value.id == id
    ensures r.None? <==> id !in AirportIds(airports)
  {
    Find(airports, (a: Airport) => a.id == id)
  }

  /** The leg with primary key `id`; None when there is none. */
  function FindRoute(routes: seq<Route>, id: RouteId): (r: Option<Route>)
    ensures r.Some? ==> r.value in routes && r.value.id == id
    ensures r.None? ==> forall x :: x in routes ==> x.id != id
  {
    Find(routes, (x: Route) => x.id == id)
  }

  // ---------------------------------------------------------------------------
  // Declared constraints

  function AirportKey(a: Airport): nat { a.id }
  function RouteKey(r: Route): nat { r.id }

  /** Primary keys grow with insertion order. */
  ghost predicate AirportIdsIncreasing(airports: seq<Airport>)
  {
    Increasing(airports, AirportKey)
  }

  ghost predicate RouteIdsIncreasing(routes: seq<Route>)
  {
    Increasing(routes, RouteKey)
  }

  /** Strictly increasing primary keys are unique. */
  lemma RouteIdsUnique(routes: seq<Route>, r1: Route, r2: Route)
    requires RouteIdsIncreasing(routes)
    requires r1 in routes && r2 in routes && r1.id == r2.id
    ensures r1 == r2
  {
    var i :| 0 <= i < |routes| && routes[i] == r1;
    var j :| 0 <= j < |routes| && routes[j] == r2;
    assert RouteKey(routes[i]) == RouteKey(routes[j]);
  }

  /** Airport codes are unique, and neither code nor name is blank or longer
      than its maximum length. */
  ghost predicate AirportsValid(airports: seq<Airport>)
  {
    && AirportIdsIncreasing(airports)
    && (forall a, b :: a in airports && b in airports && a.code == b.code ==> a == b)
    && (forall a :: a in airports ==> 0 < |a.code| <= CodeMaxLength && 0 < |a.name| <= NameMaxLength)
  }

  /** At most one leg leaves an airport at each position. */
  ghost predicate PositionsUnique(routes: seq<Route>)
  {
    forall r1, r2 :: r1 in routes && r2 in routes && r1.from == r2.from && r1.position == r2.position ==> r1 == r2
  }

  /** Both foreign keys of every leg name an existing airport. */
  ghost predicate RoutesReferToAirports(airports: seq<Airport>, routes: seq<Route>)
  {
    forall r :: r in routes ==> r.from in AirportIds(airports) && r.to in AirportIds(airports)
  }

  // ---------------------------------------------------------------------------
  // Sequences of consecutive legs

  /** The airport reached after the first `k` legs of `legs`, starting at `start`. */
  function NodeAt(start: AirportId, legs: seq<Route>, k: nat): AirportId
    requires k <= |legs|
  {
    if k == 0 then start else legs[k - 1].to
  }

  function End(start: AirportId, legs: seq<Route>): AirportId
  {
    NodeAt(start, legs, |legs|)
  }

  /** `legs` are existing legs, each leaving where the previous one arrives,
      the first one leaving `start`. */
  ghost predicate IsPath(routes: seq<Route>, start: AirportId, legs: seq<Route>)
    decreases |legs|
  {
    legs == [] || (legs[0] in routes && legs[0].from == start && IsPath(routes, legs[0].to, legs[1..]))
  }

  /** The summed duration of `legs`, accumulated from the first leg to the last. */
  function Total(legs: seq<Route>): nat
  {
    if legs == [] then 0 else Total(legs[..|legs| - 1]) + legs[|legs| - 1].duration
  }

  /** A journey's end does not depend on where it started once it has a leg. */
  lemma EndCons(start: AirportId, r: Route, rest: seq<Route>)
    ensures End(start, [r] + rest) == End(r.to, rest)
  {
  }

  /** A path can be taken apart after its first leg. */
  lemma PathCons(routes: seq<Route>, start: AirportId, r: Route, rest: seq<Route>)
    ensures IsPath(routes, start, [r] + rest) <==>
      r in routes && r.from == start && IsPath(routes, r.to, rest)
    ensures End(start, [r] + rest) == End(r.to, rest)
  {
    assert ([r] + rest)[1..] == rest;
  }

  /** Every prefix of a path is a path, and the next leg leaves where the
      prefix ends. */
  lemma {:induction false} PathPrefix(routes: seq<Route>, start: AirportId, legs: seq<Route>, k: nat)
    requires IsPath(routes, start, legs) && k <= |legs|
    ensures IsPath(routes, start, legs[..k])
    ensures k < |legs| ==> legs[k] in routes && End(start, legs[..k]) == legs[k].from
    decreases k
  {
    if k > 0 {
      var r, rest := legs[0], legs[1..];
      PathPrefix(routes, r.to, rest, k - 1);
      assert legs[..k] == [r] + rest[..k - 1];
      PathCons(routes, start, r, rest[..k - 1]);
      assert k < |legs| ==> legs[k] == rest[k - 1];
    }
  }

  /** A path extended by a leg leaving its end is a path. */
  lemma {:induction false} PathSnoc(routes: seq<Route>, start: AirportId, legs: seq<Route>, r: Route)
    requires IsPath(routes, start, legs)
    requires r in routes && r.from == End(start, legs)
    ensures IsPath(routes, start, legs + [r]) && End(start, legs + [r]) == r.to
    ensures Total(legs + [r]) == Total(legs) + r.duration
    decreases |legs|
  {
    if legs != [] {
      var h, rest := legs[0], legs[1..];
      assert legs == [h] + rest;
      EndCons(start, h, rest);
      PathSnoc(routes, h.to, rest, r);
      assert legs + [r] == [h] + (rest + [r]);
      PathCons(routes, start, h, rest + [r]);
    }
    assert (legs + [r])[..|legs|] == legs;
  }

  /** The durations of a prefix of `legs` add up to no more than those of a
      longer prefix. */
  lemma {:induction false} TotalPrefixMonotone(legs: seq<Route>, j: nat, k: nat)
    requires j <= k <= |legs|
    ensures Total(legs[..j]) <= Total(legs[..k])
    decreases k - j
  {
    if j < k {
      TotalPrefixMonotone(legs, j, k - 1);
      assert legs[..k][..k - 1] == legs[..k - 1];
    }
  }
}
