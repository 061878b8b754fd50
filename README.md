# Airport route tree — a verified model

The app keeps a set of airports and a set of directed, timed legs
("routes") between them. Each leg leaves its origin at position `left` or
`right`, and may name a parent leg. The forms and views keep the legs in a
binary tree: at most one leg per origin and position, one root airport that
every parentless leg leaves, and every child leg leaving where its parent
arrives. On top of this sit two queries:

- walk `n` steps from an airport, always taking the same position;
- a breadth-first search for a route between two airports.

The model has six modules:

- `Models` (`models.dfy`): the records and declared constraints, table
  queries (`filter`, `get`), and journeys along legs (`IsPath`, `End`,
  `Total`).
- `Forms` (`forms.dfy`): the validation of RouteForm (field cleaning plus
  the four checks of `clean`), the input rules of the two query forms, and
  the tree invariants that accepting only error-free legs keeps.
- `Topology` (`topology.dfy`): a class holding the airport and leg tables
  and the next primary keys. Its four methods are the add and delete views.
  Each method keeps the class invariant `Valid()` and states its new
  state exactly.
- `NthNode` (`nthnode.dfy`): the walk of SearchNthNode, as a `while` loop
  proved against the function `Walk`.
- `ShortestNode` (`shortest.dfy`): `bfs_shortest_path` as written. An
  airport is marked visited when taken off the queue, and queued only when
  not yet visited. The search is proved to return a journey with the
  fewest legs, and to return nothing exactly when no journey reaches the
  target.
- `Scenarios` (`scenarios.dfy`): concrete situations.

Records refer to each other by primary key. A table is a sequence in
primary-key order, so `first()` on an unordered query is the first
matching element.

Where the code and the system's design description differ, the model
follows the code:

- RouteForm reports every failing check at once: `add_error` does not stop
  the others. The outcome is therefore a set of errors, not the first
  failure.
- `duration` is a `PositiveIntegerField`, which accepts 0. Its range check
  also rejects values above 2147483647, the upper end of Django's default
  range for such a field (`Models.DurationMax`). Durations are `nat`.
- Nothing stops a cycle among airports. `Scenarios.CycleAccepted` shows the
  form accepting B → A under the root leg A → B.
- The search's docstring promises the shortest path by duration. It
  returns the fewest legs instead; `ShortestNode.FewestHopsNotLeastDuration`
  gives a case.
- Under the tree invariants, the delete view's warning "this will remove
  the entire route tree" can only fire when the leg being deleted is the
  last leg (`Topology.RootWarningOnlyForLastLeg`).

## Model

| member | source | states |
|---|---|---|
| Models.FindAirport | airport_route/views.py:54 | the airport with that primary key, or None exactly when no airport has it |
| Models.FindRoute | airport_route/views.py:95 | a leg with that primary key, or None when no leg has it |
| Models.TotalPrefixMonotone | airport_route/views.py:144 | the running total of durations never decreases along a journey |
| Forms.CleanParent | airport_route/models.py:25 | a parent choice cleans to an existing leg with that key; it is dropped only when no leg has it |
| Forms.FieldsAccepted | airport_route/models.py:21-25 | field cleaning passes exactly when both airports exist, a position is chosen, the duration lies in 0..2147483647 and a given parent key names a leg; cleaning then hands on the submitted airports and position and the leg the parent key names |
| Forms.Roots | airport_route/forms.py:52 | exactly the parentless legs |
| Forms.Occupants | airport_route/forms.py:42-44 | exactly the other legs leaving the origin at that position, the edited leg excluded |
| Forms.PositionErrors | airport_route/forms.py:40-47 | the position error fires exactly when origin and position are present and another leg already holds them |
| Forms.TreeErrors | airport_route/forms.py:49-60 | the root error only for a parentless leg whose origin differs from that of some root leg, and always when there is a root leg and no origin; the parent error exactly when a present origin differs from the parent's destination |
| Forms.CleanErrors | airport_route/forms.py:29-62 | the same-airport, position, root and parent errors with the conditions above, all reported together |
| Forms.RouteErrors | airport_route/forms.py:17-62 | a form without error has every field present, a duration in range and two distinct airports, so the leg can be saved |
| Forms.RootCheck | airport_route/forms.py:50-56 | with one root airport, a root error fires exactly when the new leg is parentless and some root leg leaves elsewhere, whichever root `first()` returns |
| Forms.AcceptedIffAdmissible | airport_route/forms.py:29-62 | the form reports no error exactly when the leg obeys every rule: known airports, a position, a duration in 0..2147483647, distinct ends, a free position, a root leg from the root airport, a child leg leaving its parent's destination |
| Forms.AppendKeepsIdsIncreasing | airport_route/views.py:75-76 | saving under a larger primary key keeps keys increasing |
| Forms.AppendKeepsContinuity | airport_route/forms.py:57-60 | a child leg leaving where an earlier parent arrives keeps every leg continuing from its parent |
| Forms.InsertKeepsTree | airport_route/forms.py:29-62 | saving a leg that obeys the rules keeps binary branching, the single root airport, parent continuity, no self-loops and valid foreign keys |
| Forms.SearchErrors | airport_route/forms.py:66-90 | the walk form accepts exactly when the airport exists, a direction is chosen and n ≥ 1; the n error fires exactly when n is missing or below 1 |
| Forms.ShortestErrors | airport_route/forms.py:94-114 | the search form accepts exactly two existing, distinct airports; the same-airport error fires when both are known and equal |
| Topology.AirportErrors | airport_route/models.py:6-7 | an airport is accepted exactly when code and name are non-blank and within 10 and 200 characters and the code is unused; the code-taken error fires exactly for a well-formed code already in use |
| Topology.Referenced | airport_route/views.py:56-58 | true exactly when some leg leaves or reaches the airport |
| Topology.RootRemoved | airport_route/views.py:102-104 | the warning fires exactly when the leg is parentless and no other leg is parentless |
| Topology.LoneRoot | airport_route/views.py:102-104 | a parentless leg is the only one exactly when the parentless legs number one, primary keys keeping them distinct |
| Topology.Children | airport_route/models.py:25 | exactly the legs naming the leg as parent |
| Topology.WithoutAirport | airport_route/views.py:63 | every airport but the deleted one; its key leaves the key set |
| Topology.WithoutRoute | airport_route/views.py:107 | every leg but the deleted one |
| Topology.AddAirportKeepsValid | airport_route/views.py:34-35 | saving an accepted airport keeps codes unique, fields within bounds, keys increasing, and foreign keys valid |
| Topology.AddRouteKeepsValid | airport_route/views.py:75-76 | saving an accepted leg keeps the tree invariants, foreign keys and keys below the next key |
| Topology.RemoveAirportKeepsValid | airport_route/views.py:56-63 | deleting an airport no leg uses keeps the airport table valid and no leg dangling |
| Topology.RemoveRouteKeepsTree | airport_route/views.py:97-107 | deleting a leg without children keeps every tree invariant |
| Topology.RemoveRouteKeepsValid | airport_route/views.py:97-107 | deleting a leg without children keeps the tree, foreign keys and key bound |
| Topology.AnotherRootBesideChildless | airport_route/views.py:102-105 | when a childless leg is not the only leg, some other leg is parentless, so the root warning cannot fire |
| Topology.RootWarningOnlyForLastLeg | airport_route/views.py:102-105 | the root warning fires only when the deleted leg is the last one, and leaves the table empty |
| Topology.Topology.AddAirport | airport_route/views.py:29-37 | the airport is saved under the next key exactly when the form reports no error, and the next key then advances by one; otherwise nothing changes; legs unchanged; invariant kept |
| Topology.Topology.DeleteAirport | airport_route/views.py:52-66 | not found when the key is unknown; refused when any leg uses the airport; otherwise removed; invariant kept |
| Topology.Topology.AddRoute | airport_route/views.py:70-78 | the leg is saved under the next key exactly when the form reports no error, and the next key then advances by one; otherwise nothing changes; airports unchanged; invariant kept |
| Topology.Topology.DeleteRoute | airport_route/views.py:93-109 | not found when the key is unknown; refused with the child count when it has children; otherwise removed, warning exactly when it was parentless and the only root leg; invariant kept |
| NthNode.Lookup | airport_route/views.py:139-142 | a found leg leaves the current airport at the chosen position |
| NthNode.LookupFinds | airport_route/models.py:28-29 | with one leg per origin and position, the lookup fails exactly when no such leg exists and otherwise returns that leg |
| NthNode.Walk | airport_route/views.py:137-152 | the walk takes at most n legs, each an existing leg at the chosen position |
| NthNode.WalkFollowsDirection | airport_route/views.py:137-149 | the walk takes at most n existing legs, end to end, all at the chosen position |
| NthNode.WalkStopsAtDeadEnd | airport_route/views.py:150-152 | a walk shorter than n ended where no leg leaves at that position |
| NthNode.WalkIsOnlyWay | airport_route/views.py:137-149 | every journey of at most n legs at the chosen position is a prefix of the walk |
| NthNode.WalkComposes | airport_route/views.py:137-152 | walking n + m steps is walking n, then m from where those ended, including when the first n steps get stuck |
| NthNode.RowsSnoc | airport_route/views.py:143-149 | one more step appends one row with the new airport, the leg's duration and the new total |
| NthNode.RowsAt | airport_route/views.py:133-149 | row 0 is the start with no total; row k shows leg k's destination, its duration and the total of the first k legs |
| NthNode.RowsAccumulate | airport_route/views.py:135-148 | the running totals shown never decrease |
| NthNode.Search | airport_route/views.py:123-163 | a result exactly when all n steps succeed, with the airport reached and the summed duration; the path rows describe the legs walked |
| ShortestNode.Airports | airport_route/views.py:244 | entry k of the path is the airport reached after k legs |
| ShortestNode.Outgoing | airport_route/views.py:239 | exactly the legs leaving the airport |
| ShortestNode.SuccessorsMembers | airport_route/views.py:241-256 | the items queued are exactly the journeys extended by a leg to an unvisited airport |
| ShortestNode.NextValid | airport_route/views.py:243-256 | an extended journey keeps its path, airports and duration consistent, one leg longer |
| ShortestNode.InvInit | airport_route/views.py:223-224 | the first queue and empty visited set satisfy the search invariant |
| ShortestNode.SortedAfterStep | airport_route/views.py:227-256 | hop counts along the queue stay ordered and within the level and the next |
| ShortestNode.BetweenAfterStep | airport_route/views.py:227-256 | every queued hop count is the new front's or one more |
| ShortestNode.FrontierAfterStep | airport_route/views.py:235-256 | every leg from a visited to an unvisited airport still has an item queued for its destination |
| ShortestNode.BelowAfterStep | airport_route/views.py:227-237 | every journey shorter than the new front's hop count ends at a visited airport |
| ShortestNode.AtLevelAfterStep | airport_route/views.py:227-256 | every journey of the new front's length ends visited or has an item of that length queued |
| ShortestNode.AdvanceKeepsInv | airport_route/views.py:227-256 | taking the front off, marking it visited and queuing its successors keeps the invariant |
| ShortestNode.SkipKeepsInv | airport_route/views.py:235-236 | skipping an already visited airport keeps the invariant |
| ShortestNode.ExpandKeepsInv | airport_route/views.py:237-256 | visiting an airport and queuing its unvisited successors keeps the invariant |
| ShortestNode.VisitShrinks | airport_route/views.py:235-237 | each visit leaves fewer airports to visit, so the search ends |
| ShortestNode.InvAtTarget | airport_route/views.py:228-233 | the item returned describes a journey to the target with the fewest legs |
| ShortestNode.InvAtEmpty | airport_route/views.py:226-257 | once the queue is empty every airport a journey reaches was visited |
| ShortestNode.UnreachableAtEmpty | airport_route/views.py:226-257 | once the queue is empty no journey reaches the target |
| ShortestNode.AppendSuccessors | airport_route/views.py:241-256 | the inner loop appends one item per leg to an unvisited airport, in order |
| ShortestNode.BfsShortestPath | airport_route/views.py:219-257 | an answer is a journey from start to target with its airports and summed duration and no journey has fewer legs; None exactly when no journey reaches the target |
| ShortestNode.FewestHopsNotLeastDuration | airport_route/views.py:219-222 | with a direct 100-minute leg and a 20-minute two-leg route, every answer takes 100 minutes |
| Scenarios.ChildMustLeaveParentDestination | airport_route/forms.py:57-60 | A → C under parent A → B is refused with the parent error |
| Scenarios.CycleAccepted | airport_route/forms.py:49-60 | B → A under root A → B passes every check |
| Scenarios.WalkTwoLeft | airport_route/views.py:137-149 | two left steps from A over A → B (10) and B → D (5) reach D in 15 minutes |
| Scenarios.ShortestAtoD | airport_route/views.py:219-257 | from A to D over A → B, A → C, B → D the answer is A, B, D in 15 minutes |

## Left out

- Rendering, flash messages, redirects and template context: the views return their outcome as a value instead.
- HomepageView (the airport and leg counts and the longest leg) is a read-only dashboard. It is not part of this model.
- `created_at` and the listings ordered by it. They only feed the pages.
- Names and codes in the answers. The search's path holds airport keys and its details hold the legs, not dictionaries of names. The walk's result holds the airport key, not its code and name.
- `float(route.duration)` in the search: durations are summed as integers.
- `on_delete=CASCADE`: both delete views refuse a delete that would cascade, so it never fires.
- Editing a leg: `clean` takes the edited leg's key (`instance`), but no view edits legs, so only a new leg (None) is saved.
- Whitespace stripping and blank-value handling of text fields: `code` and `name` are taken as submitted, and their length counts characters.
- MultipleObjectsReturned in the walk's lookup: `unique_together` rules it out. `NthNode.Lookup` takes the first match, which `NthNode.LookupFinds` shows is the only one.
- Django's own `validate_unique` for `unique_together`: the form has already put its error on `position`, and Django skips fields that carry an error.
- The duration range depends on the database backend: some backends allow up to 2^63 - 1. The model fixes the bound at Django's default 32-bit range (`Models.DurationMax`).
- Concurrency and transactions: each operation is one atomic step on the class.
- `if current:` in the walk view: an airport is always truthy, so the result is produced whenever all steps succeed.
- TreeErrors: names the offending root airport only as "the origin of some root leg". `Forms.RootCheck` pins it down under a single root airport, which is when `first()` does not matter.
- CleanErrors: inherits the TreeErrors caveat for the root error.
- BfsShortestPath: does not say which of several fewest-leg journeys is returned (the first in FIFO order), nor anything about its duration beyond it being the sum of its legs.
