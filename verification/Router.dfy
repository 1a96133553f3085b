/** `events/router.py`: routes in priority order and the subscribers they lead to. */
module Routing {
  import opened Collections
  import opened EventModel
  import opened Sorting

  /** A route; its filter chain is the predicate `passes`. */
  datatype Route = Route(name: Id, subscriber: Subscriber, passes: Event -> bool, priority: int)

  function ByPriority(): Route -> Key {
    (r: Route) => Key(r.priority as real, 0.0)
  }

  // ---- removal and routing --------------------------------------------------------------

  function RemoveFirst(routes: seq<Route>, name: Id): seq<Route> {
    if routes == [] then []
    else if routes[0].name == name then routes[1..]
    else [routes[0]] + RemoveFirst(routes[1..], name)
  }

  lemma {:induction false} RemoveAt(routes: seq<Route>, name: Id, i: nat)
    requires i < |routes| && routes[i].name == name
    requires forall j :: 0 <= j < i ==> routes[j].name != name
    ensures RemoveFirst(routes, name) == routes[..i] + routes[i + 1..]
  {
    if i > 0 {
      RemoveAt(routes[1..], name, i - 1);
      assert routes[..i] == [routes[0]] + routes[1..][..i - 1];
    }
  }

  lemma {:induction false} RemoveAbsent(routes: seq<Route>, name: Id)
    requires forall r :: r in routes ==> r.name != name
    ensures RemoveFirst(routes, name) == routes
  {
    if routes != [] { RemoveAbsent(routes[1..], name); }
  }

  lemma {:induction false} RemoveKeepsSorted(routes: seq<Route>, name: Id)
    requires Sorted(routes, ByPriority())
    ensures Sorted(RemoveFirst(routes, name), ByPriority())
    ensures forall r :: r in RemoveFirst(routes, name) ==> r in routes
  {
    if routes != [] && routes[0].name != name {
      RemoveKeepsSorted(routes[1..], name);
      var rest := RemoveFirst(routes[1..], name);
      forall i | 0 <= i < |rest| ensures routes[0].priority <= rest[i].priority {
        assert rest[i] in routes[1..];
      }
    }
  }

  /** The subscribers an event goes to. */
  function Receivers(routes: seq<Route>, e: Event): seq<Subscriber> {
    if routes == [] then []
    else
      var earlier := Receivers(routes[..|routes| - 1], e);
      var last := routes[|routes| - 1];
      if last.subscriber !in earlier && last.passes(e) then earlier + [last.subscriber] else earlier
  }

  ghost predicate LeadsTo(route: Route, s: Subscriber, e: Event) {
    route.subscriber == s && route.passes(e)
  }

  /** The first route that takes the event to the subscriber (or the number of routes). */
  ghost function FirstPassing(routes: seq<Route>, s: Subscriber, e: Event): (n: nat)
    ensures n <= |routes|
    ensures n < |routes| ==> LeadsTo(routes[n], s, e)
    ensures forall i :: 0 <= i < n ==> !LeadsTo(routes[i], s, e)
  {
    if routes == [] then 0
    else
      var n := FirstPassing(routes[..|routes| - 1], s, e);
      if n < |routes| - 1 then n
      else if LeadsTo(routes[|routes| - 1], s, e) then |routes| - 1 else |routes|
  }

  /** An event goes to every subscriber with a passing route, once. */
  lemma {:induction false} ReceiversExact(routes: seq<Route>, e: Event)
    ensures Distinct(Receivers(routes, e))
    ensures forall s :: s in Receivers(routes, e) <==> FirstPassing(routes, s, e) < |routes|
  {
    if routes != [] {
      ReceiversExact(routes[..|routes| - 1], e);
    }
  }

  /** Receivers come in the order of their first passing routes. */
  lemma {:induction false} ReceiversInOrder(routes: seq<Route>, e: Event, i: nat, j: nat)
    requires i < j < |Receivers(routes, e)|
    ensures FirstPassing(routes, Receivers(routes, e)[i], e) < FirstPassing(routes, Receivers(routes, e)[j], e)
  {
    var init := routes[..|routes| - 1];
    var earlier := Receivers(init, e);
    ReceiversExact(init, e);
    assert earlier[i] in earlier;
    if j < |earlier| {
      ReceiversInOrder(init, e, i, j);
      assert earlier[j] in earlier;
    }
  }

  class Router {
    var routes: seq<Route>

    constructor ()
      ensures routes == []
    {
      routes := [];
    }

    /** `add_route`: append, then sort. */
    method AddRoute(route: Route)
      modifies this
      ensures routes == StableSort(old(routes) + [route], ByPriority()) == Changed(old(routes), Add(route))
      ensures old(Sorted(routes, ByPriority())) ==>
          routes == Insert(old(routes), route, ByPriority()) && Sorted(routes, ByPriority())
      ensures old(InPriorityOrder(routes)) ==> exists k: nat :: PlacedAt(routes, old(routes), route, k)
    {
      if InPriorityOrder(routes) {
        var _ := AddedByPriority(routes, route);
      }
      SortIsStable(routes + [route], ByPriority(), Key(0.0, 0.0));
      if Sorted(routes, ByPriority()) {
        SortSorted(routes, ByPriority());
        assert (routes + [route])[..|routes|] == routes;
      }
      routes := routes + [route];
      routes := StableSort(routes, ByPriority());
    }

    /** `remove_route`: drop the first route of that name. */
    method RemoveRoute(name: Id) returns (found: bool)
      modifies this
      ensures routes == RemoveFirst(old(routes), name) == Changed(old(routes), Remove(name))
      ensures found <==> exists r :: r in old(routes) && r.name == name
    {
      for i := 0 to |routes|
        invariant routes == old(routes)
        invariant forall j :: 0 <= j < i ==> routes[j].name != name
      {
        if routes[i].name == name {
          RemoveAt(routes, name, i);
          assert routes[i] in old(routes);
          routes := routes[..i] + routes[i + 1..];
          return true;
        }
      }
      RemoveAbsent(routes, name);
      return false;
    }

    /** `route_event` */
    method RouteEvent(e: Event) returns (subscribers: seq<Subscriber>)
      ensures subscribers == Receivers(routes, e)
    {
      subscribers := [];
      for i := 0 to |routes|
        invariant subscribers == Receivers(routes[..i], e)
      {
        assert routes[..i + 1][..i] == routes[..i];
        if routes[i].subscriber in subscribers {
          continue;
        }
        if routes[i].passes(e) {
          subscribers := subscribers + [routes[i].subscriber];
        }
      }
      TakeAll(routes);
    }
  }

  // ---- priorities ----------------------------------------------------------------------------

  ghost predicate InPriorityOrder(routes: seq<Route>) {
    forall i, j :: 0 <= i < j < |routes| ==> routes[i].priority <= routes[j].priority
  }

  /** The route stands at place k, between the lower or equal numbers and the higher ones. */
  ghost predicate PlacedAt(after: seq<Route>, routes: seq<Route>, route: Route, k: nat) {
    && k <= |routes| && after == routes[..k] + [route] + routes[k..]
    && (forall i :: 0 <= i < k ==> routes[i].priority <= route.priority)
    && (forall i :: k <= i < |routes| ==> route.priority < routes[i].priority)
  }

  lemma {:induction false} LowerNumber(a: Route, b: Route)
    ensures Less(ByPriority()(a), ByPriority()(b)) <==> a.priority < b.priority
  {
  }

  lemma {:induction false} SortedMeansOrder(routes: seq<Route>)
    ensures Sorted(routes, ByPriority()) <==> InPriorityOrder(routes)
  {
    forall i, j | 0 <= i < j < |routes|
      ensures !Less(ByPriority()(routes[j]), ByPriority()(routes[i])) <==> routes[i].priority <= routes[j].priority
    {
      LowerNumber(routes[j], routes[i]);
    }
  }

  lemma {:induction false} PlacedBefore(after: seq<Route>, routes: seq<Route>, route: Route, k: nat, last: Route)
    requires PlacedAt(after, routes, route, k) && route.priority < last.priority
    ensures PlacedAt(after + [last], routes + [last], route, k)
  {
    assert (routes + [last])[..k] == routes[..k] && (routes + [last])[k..] == routes[k..] + [last];
  }

  lemma {:induction false} InsertPlaces(routes: seq<Route>, route: Route) returns (k: nat)
    requires InPriorityOrder(routes)
    ensures PlacedAt(Insert(routes, route, ByPriority()), routes, route, k)
  {
    k := |routes|;
    if k > 0 && route.priority < routes[k - 1].priority {
      var init, last := routes[..k - 1], routes[k - 1];
      LowerNumber(route, last);
      k := InsertPlaces(init, route);
      PlacedBefore(Insert(init, route, ByPriority()), init, route, k, last);
      Snoc(routes);
    } else {
      if k > 0 {
        LowerNumber(route, routes[k - 1]);
      }
      PlacedLast(routes, route);
    }
  }

  lemma {:induction false} PlacedLast(routes: seq<Route>, route: Route)
    requires InPriorityOrder(routes) && (routes != [] ==> routes[|routes| - 1].priority <= route.priority)
    ensures PlacedAt(routes + [route], routes, route, |routes|)
  {
    assert routes[..|routes|] == routes && routes[|routes|..] == [];
  }

  /** A new route comes behind every route whose number is not above its own and before all others,
      which keep their order. */
  lemma {:induction false} AddedByPriority(routes: seq<Route>, route: Route) returns (k: nat)
    requires InPriorityOrder(routes)
    ensures InPriorityOrder(StableSort(routes + [route], ByPriority()))
    ensures PlacedAt(StableSort(routes + [route], ByPriority()), routes, route, k)
  {
    SortedMeansOrder(routes);
    SortSorted(routes, ByPriority());
    assert (routes + [route])[..|routes|] == routes;
    k := InsertPlaces(routes, route);
    SortIsStable(routes + [route], ByPriority(), Key(0.0, 0.0));
    SortedMeansOrder(StableSort(routes + [route], ByPriority()));
  }

  /** With the routes in priority order, a receiver listed earlier has a passing route whose number is
      at most that of any passing route to a receiver listed later. */
  lemma {:induction false} ReceiversByPriority(routes: seq<Route>, e: Event, i: nat, j: nat, r: nat)
    requires InPriorityOrder(routes) && i < j < |Receivers(routes, e)| && r < |routes|
    requires routes[r].subscriber == Receivers(routes, e)[j] && routes[r].passes(e)
    ensures exists q :: 0 <= q < r && LeadsTo(routes[q], Receivers(routes, e)[i], e)
                        && routes[q].priority <= routes[r].priority
  {
    ReceiversExact(routes, e);
    ReceiversInOrder(routes, e, i, j);
    var q := FirstPassing(routes, Receivers(routes, e)[i], e);
    assert Receivers(routes, e)[j] in Receivers(routes, e);
    assert LeadsTo(routes[r], Receivers(routes, e)[j], e);
    assert LeadsTo(routes[q], Receivers(routes, e)[i], e);
  }

  // ---- runs of registrations ---------------------------------------------------------------

  datatype RouteChange = Add(route: Route) | Remove(name: Id)

  function Changed(routes: seq<Route>, c: RouteChange): seq<Route> {
    match c
    case Add(r) => StableSort(routes + [r], ByPriority())
    case Remove(name) => RemoveFirst(routes, name)
  }

  function AfterChanges(changes: seq<RouteChange>): seq<Route> {
    if changes == [] then [] else Changed(AfterChanges(changes[..|changes| - 1]), changes[|changes| - 1])
  }

  /** Whatever is registered and removed, the routes stay in priority order, the lowest number
      first. */
  lemma {:induction false} AlwaysSorted(changes: seq<RouteChange>)
    ensures Sorted(AfterChanges(changes), ByPriority())
    ensures InPriorityOrder(AfterChanges(changes))
  {
    SortedMeansOrder(AfterChanges(changes));
    if changes != [] {
      var init, c := changes[..|changes| - 1], changes[|changes| - 1];
      AlwaysSorted(init);
      match c {
        case Add(r) => SortIsStable(AfterChanges(init) + [r], ByPriority(), Key(0.0, 0.0));
        case Remove(name) => RemoveKeepsSorted(AfterChanges(init), name);
      }
    }
  }
}
