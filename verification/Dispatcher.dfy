/** `events/dispatcher.py`: delivery of one event to its subscribers. */
module Dispatching {
  import opened Collections
  import opened EventModel

  datatype Mode = AtMostOnce | AtLeastOnce | ExactlyOnce | UnknownMode(text: string)

  /** The two reasons for SKIPPED are kept apart. */
  datatype Status = Delivered | Failed | AlreadyProcessed | NotHandled

  datatype Delivery = Delivery(eventId: Id, subscriber: Subscriber, status: Status)

  /** `_deliver_to_subscriber`; the handlers in `raising` raise when called. An inactive
      subscriber returns without calling its handler. */
  function StatusFor(e: Event, s: Subscriber, mode: Mode, processed: set<Id>, raising: set<Subscriber>): Status {
    if mode == ExactlyOnce && e.id in processed then AlreadyProcessed
    else if !s.Matches(e.kind) then NotHandled
    else if s.active && s in raising then Failed
    else Delivered
  }

  function ProcessedAfter(e: Event, mode: Mode, processed: set<Id>, status: Status): set<Id> {
    if status == Delivered && mode == ExactlyOnce then processed + {e.id} else processed
  }

  /** The results for some subscribers, and the ids processed afterwards. */
  function Deliveries(e: Event, subscribers: seq<Subscriber>, mode: Mode, processed: set<Id>,
                      raising: set<Subscriber>): (r: (seq<Delivery>, set<Id>))
    ensures |r.0| == |subscribers|
  {
    if subscribers == [] then ([], processed)
    else
      var (results, before) := Deliveries(e, subscribers[..|subscribers| - 1], mode, processed, raising);
      var s := subscribers[|subscribers| - 1];
      var status := StatusFor(e, s, mode, before, raising);
      (results + [Delivery(e.id, s, status)], ProcessedAfter(e, mode, before, status))
  }

  class Dispatcher {
    var processedIds: set<Id>

    constructor ()
      ensures processedIds == {}
    {
      processedIds := {};
    }

    method DeliverToSubscriber(e: Event, s: Subscriber, mode: Mode, raising: set<Subscriber>)
        returns (d: Delivery)
      modifies this
      ensures d == Delivery(e.id, s, StatusFor(e, s, mode, old(processedIds), raising))
      ensures processedIds == ProcessedAfter(e, mode, old(processedIds), d.status)
    {
      if mode == ExactlyOnce && e.id in processedIds {
        return Delivery(e.id, s, AlreadyProcessed);
      }
      if !s.Matches(e.kind) {
        return Delivery(e.id, s, NotHandled);
      }
      if s.active && s in raising {
        return Delivery(e.id, s, Failed);
      }
      if mode == ExactlyOnce {
        processedIds := processedIds + {e.id};
      }
      return Delivery(e.id, s, Delivered);
    }

    /** `dispatch`: an unknown mode raises before anything is delivered. */
    method Dispatch(e: Event, subscribers: seq<Subscriber>, mode: Mode, raising: set<Subscriber>)
        returns (r: Result<seq<Delivery>, Mode>)
      modifies this
      ensures r == if mode.UnknownMode? then Err(mode)
                   else Ok(Deliveries(e, subscribers, mode, old(processedIds), raising).0)
      ensures processedIds == if mode.UnknownMode? then old(processedIds)
                              else Deliveries(e, subscribers, mode, old(processedIds), raising).1
    {
      if mode.UnknownMode? {
        return Err(mode);
      }
      var results: seq<Delivery> := [];
      for i := 0 to |subscribers|
        invariant (results, processedIds) == Deliveries(e, subscribers[..i], mode, old(processedIds), raising)
      {
        assert subscribers[..i + 1][..i] == subscribers[..i];
        var d := DeliverToSubscriber(e, subscribers[i], mode, raising);
        results := results + [d];
      }
      TakeAll(subscribers);
      return Ok(results);
    }
  }

  // ---- one result per subscriber ------------------------------------------------------

  lemma {:induction false} DeliveriesNext(e: Event, subscribers: seq<Subscriber>, i: nat, mode: Mode,
                                          processed: set<Id>, raising: set<Subscriber>)
    requires i <= |subscribers|
    ensures Deliveries(e, subscribers[..i], mode, processed, raising).0
      == Deliveries(e, subscribers, mode, processed, raising).0[..i]
    decreases |subscribers|
  {
    if i < |subscribers| {
      assert subscribers[..|subscribers| - 1][..i] == subscribers[..i];
      DeliveriesNext(e, subscribers[..|subscribers| - 1], i, mode, processed, raising);
    } else {
      TakeAll(subscribers);
      TakeAll(Deliveries(e, subscribers, mode, processed, raising).0);
    }
  }

  /** Results are for the subscribers in turn. Without exactly-once every subscriber that handles
      the event is called; with it, no handler is called for an id that is already processed. */
  lemma {:induction false} OneResultEach(e: Event, subscribers: seq<Subscriber>, mode: Mode, processed: set<Id>,
                                         raising: set<Subscriber>, i: nat)
    requires i < |subscribers|
    ensures var d := Deliveries(e, subscribers, mode, processed, raising).0[i];
      && d.eventId == e.id && d.subscriber == subscribers[i]
      && (mode != ExactlyOnce ==> d.status == StatusFor(e, subscribers[i], AtLeastOnce, {}, raising))
      && (mode == ExactlyOnce && e.id in processed ==> d.status == AlreadyProcessed)
  {
    DeliveriesNext(e, subscribers, i + 1, mode, processed, raising);
    assert subscribers[..i + 1][..i] == subscribers[..i];
    ProcessedGrows(e, subscribers[..i], mode, processed, raising);
  }

  lemma {:induction false} ProcessedGrows(e: Event, subscribers: seq<Subscriber>, mode: Mode, processed: set<Id>,
                                          raising: set<Subscriber>)
    ensures processed <= Deliveries(e, subscribers, mode, processed, raising).1 <= processed + {e.id}
  {
    if subscribers != [] {
      ProcessedGrows(e, subscribers[..|subscribers| - 1], mode, processed, raising);
    }
  }

  // ---- at most once -----------------------------------------------------------------------

  /** How many results report a delivery of the id. */
  function Delivers(results: seq<Delivery>, id: Id): nat {
    if results == [] then 0
    else
      var last := results[|results| - 1];
      Delivers(results[..|results| - 1], id) + if last.eventId == id && last.status == Delivered then 1 else 0
  }

  lemma {:induction false} DeliversConcat(s: seq<Delivery>, t: seq<Delivery>, id: Id)
    ensures Delivers(s + t, id) == Delivers(s, id) + Delivers(t, id)
  {
    if t == [] {
      assert s + t == s;
    } else {
      assert (s + t)[..|s + t| - 1] == s + t[..|t| - 1];
      DeliversConcat(s, t[..|t| - 1], id);
    }
  }

  /** Exactly-once is kept per event id: a dispatch delivers to at most one of its subscribers,
      and does so exactly when the id becomes processed. */
  lemma {:induction false} DeliversOnce(e: Event, subscribers: seq<Subscriber>, processed: set<Id>,
                                        raising: set<Subscriber>, id: Id)
    ensures var (results, after) := Deliveries(e, subscribers, ExactlyOnce, processed, raising);
      Delivers(results, id) == if id in after && id !in processed then 1 else 0
  {
    if subscribers != [] {
      var init := subscribers[..|subscribers| - 1];
      DeliversOnce(e, init, processed, raising, id);
      ProcessedGrows(e, init, ExactlyOnce, processed, raising);
      var (results, before) := Deliveries(e, init, ExactlyOnce, processed, raising);
      var (all, after) := Deliveries(e, subscribers, ExactlyOnce, processed, raising);
      assert all[..|all| - 1] == results;
    }
  }

  /** Who gets it: the first subscriber that handles the event and does not raise. */
  lemma {:induction false} FirstAbleGetsIt(e: Event, subscribers: seq<Subscriber>, processed: set<Id>,
                                           raising: set<Subscriber>, i: nat)
    requires e.id !in processed && i < |subscribers|
    ensures Deliveries(e, subscribers, ExactlyOnce, processed, raising).0[i].status == Delivered
      <==> Able(e, subscribers[i], raising) && forall j :: 0 <= j < i ==> !Able(e, subscribers[j], raising)
  {
    DeliveriesNext(e, subscribers, i + 1, ExactlyOnce, processed, raising);
    assert subscribers[..i + 1][..i] == subscribers[..i];
    ProcessedWhenAble(e, subscribers[..i], processed, raising);
  }

  predicate Able(e: Event, s: Subscriber, raising: set<Subscriber>) {
    s.Matches(e.kind) && !(s.active && s in raising)
  }

  lemma {:induction false} ProcessedWhenAble(e: Event, subscribers: seq<Subscriber>, processed: set<Id>,
                                             raising: set<Subscriber>)
    requires e.id !in processed
    ensures e.id in Deliveries(e, subscribers, ExactlyOnce, processed, raising).1
      <==> exists j :: 0 <= j < |subscribers| && Able(e, subscribers[j], raising)
  {
    if subscribers != [] {
      ProcessedWhenAble(e, subscribers[..|subscribers| - 1], processed, raising);
    }
  }

  // ---- every result told ----------------------------------------------------------------------

  /** An exactly-once event is held back behind subscribers if its id was processed before the
      dispatch, or one of them handles the event and does not raise. */
  ghost predicate HeldBack(e: Event, earlier: seq<Subscriber>, mode: Mode, processed: set<Id>,
                           raising: set<Subscriber>)
  {
    mode == ExactlyOnce && (e.id in processed || exists j :: 0 <= j < |earlier| && Able(e, earlier[j], raising))
  }

  lemma {:induction false} HeldBackWhenProcessed(e: Event, subscribers: seq<Subscriber>, mode: Mode,
                                                 processed: set<Id>, raising: set<Subscriber>)
    ensures HeldBack(e, subscribers, mode, processed, raising)
      <==> mode == ExactlyOnce && e.id in Deliveries(e, subscribers, mode, processed, raising).1
  {
    ProcessedGrows(e, subscribers, mode, processed, raising);
    if mode == ExactlyOnce && e.id !in processed {
      ProcessedWhenAble(e, subscribers, processed, raising);
    }
  }

  /** Which result a subscriber gets, in every mode: it fails exactly if it is not held back, handles
      the event's type, is active and raises. */
  lemma {:induction false} StatusExactly(e: Event, subscribers: seq<Subscriber>, mode: Mode, processed: set<Id>,
                                         raising: set<Subscriber>, i: nat)
    requires i < |subscribers|
    ensures var s := subscribers[i];
      var status := Deliveries(e, subscribers, mode, processed, raising).0[i].status;
      var held := HeldBack(e, subscribers[..i], mode, processed, raising);
      var handles := s.kinds == [] || e.kind in s.kinds;
      var raises := s.active && s in raising;
      && (status == Failed <==> !held && handles && raises)
      && (status == Delivered <==> !held && handles && !raises)
      && (status == NotHandled <==> !held && !handles)
      && (status == AlreadyProcessed <==> held)
  {
    DeliveriesNext(e, subscribers, i + 1, mode, processed, raising);
    assert subscribers[..i + 1][..i] == subscribers[..i];
    HeldBackWhenProcessed(e, subscribers[..i], mode, processed, raising);
  }
}
