/** `events/bus.py`, `events/history.py`: publishing, dead letters, history and the store. */
module EventBuses {
  import opened Collections
  import opened EventModel
  import opened Routing
  import opened Dispatching
  import DeadLetters
  import opened Persistence

  datatype Action = Published | Delivered | Failed | DeadLettered

  datatype HistoryEntry = HistoryEntry(event: Event, action: Action, subscriber: Option<Id>)

  datatype PublishError = EmptySource | UnknownDeliveryMode | StoreMissing

  // ---- history: a ring buffer --------------------------------------------------------------

  /** The last max entries of the log, as a deque of that length holds them. */
  function LastOf(log: seq<HistoryEntry>, max: nat): seq<HistoryEntry> {
    if |log| > max then log[|log| - max..] else log
  }

  /** Bounding at every append bounds the whole log. */
  lemma {:induction false} LastOfAppend(log: seq<HistoryEntry>, more: seq<HistoryEntry>, max: nat)
    ensures LastOf(LastOf(log, max) + more, max) == LastOf(log + more, max)
  {
  }

  class EventHistory {
    const maxEntries: nat
    var entries: seq<HistoryEntry>

    constructor (maxEntries: nat)
      ensures this.maxEntries == maxEntries && entries == []
    {
      this.maxEntries, entries := maxEntries, [];
    }

    method Append(entry: HistoryEntry)
      modifies this
      ensures entries == LastOf(old(entries) + [entry], maxEntries)
    {
      entries := entries + [entry];
      if |entries| > maxEntries {
        entries := entries[|entries| - maxEntries..];
      }
    }
  }

  // ---- the specification of publish ----------------------------------------------------------

  /** What does not change: limits, whether the validation middleware and the store are on. */
  datatype Settings = Settings(maxRecords: nat, maxHistory: nat, maxFileSize: int, length: Line -> nat,
                               validates: bool, persists: bool)

  datatype BusState = BusState(processed: set<Id>, dead: DeadLetters.Queue, history: seq<HistoryEntry>, store: Store)

  /** One publish call and its surroundings: the routes at the time, the handlers that raise, the
      clock, and the stamp a rotation would use. */
  datatype Call = Call(event: Event, mode: Mode, routes: seq<Route>, raising: set<Subscriber>, now: int, stamp: nat)

  /** The history entry for a result; a skipped delivery is entered as failed. */
  function EntryFor(e: Event, d: Delivery): HistoryEntry {
    HistoryEntry(e, match d.status
                    case Failed => DeadLettered
                    case Delivered => Action.Delivered
                    case _ => Action.Failed, Some(d.subscriber.name))
  }

  function RecordFor(e: Event, now: int, d: Delivery): DeadLetters.Record {
    DeadLetters.Record(e, d.subscriber.name, now, 3)
  }

  /** The results handled one by one: dead letters for failures, history for all. */
  function Handled(cfg: Settings, e: Event, now: int, dead: DeadLetters.Queue, history: seq<HistoryEntry>,
                   results: seq<Delivery>): (DeadLetters.Queue, seq<HistoryEntry>)
  {
    if results == [] then (dead, history)
    else
      var (q, h) := Handled(cfg, e, now, dead, history, results[..|results| - 1]);
      var d := results[|results| - 1];
      (if d.status.Failed? then DeadLetters.Added(q, cfg.maxRecords, RecordFor(e, now, d)) else q,
       LastOf(h + [EntryFor(e, d)], cfg.maxHistory))
  }

  predicate Rejected(cfg: Settings, c: Call) {
    || (cfg.validates && c.event.source.text == "")
    || (c.mode.UnknownMode? && Receivers(c.routes, c.event) != [])
  }

  /** The results of a publish that is not rejected. */
  function Results(st: BusState, c: Call): seq<Delivery> {
    Deliveries(c.event, Receivers(c.routes, c.event), c.mode, st.processed, c.raising).0
  }

  /** The state once the event is delivered and the results are handled. */
  function Dispatched(cfg: Settings, st: BusState, c: Call): BusState {
    var processed := Deliveries(c.event, Receivers(c.routes, c.event), c.mode, st.processed, c.raising).1;
    var (q, h) := Handled(cfg, c.event, c.now, st.dead, st.history, Results(st, c));
    BusState(processed, q, h, st.store)
  }

  function Stored(cfg: Settings, store: Store, c: Call): Result<Store, StoreError> {
    if cfg.persists then Written(store, EventLine(c.event), c.stamp, cfg.length, cfg.maxFileSize) else Ok(store)
  }

  /** `publish` */
  function PublishStep(cfg: Settings, st: BusState, c: Call): (BusState, Result<seq<Delivery>, PublishError>) {
    if cfg.validates && c.event.source.text == "" then (st, Err(EmptySource))
    else if Rejected(cfg, c) then (st, Err(UnknownDeliveryMode))
    else
      var after := Dispatched(cfg, st, c);
      var store := Stored(cfg, st.store, c);
      if store.Err? then (after, Err(StoreMissing))
      else
        (after.(store := store.value,
                history := LastOf(after.history + [HistoryEntry(c.event, Published, None)], cfg.maxHistory)),
         Ok(Results(st, c)))
  }

  class EventBus {
    const router: Router
    const dispatcher: Dispatcher
    const deadLetter: DeadLetters.DeadLetterQueue
    const history: EventHistory
    const persistence: EventPersistence
    const validates: bool
    const persists: bool

    constructor (router: Router, dispatcher: Dispatcher, deadLetter: DeadLetters.DeadLetterQueue,
                 history: EventHistory, persistence: EventPersistence, validates: bool, persists: bool)
      ensures this.router == router && this.dispatcher == dispatcher && this.deadLetter == deadLetter
      ensures this.history == history && this.persistence == persistence
      ensures this.validates == validates && this.persists == persists
    {
      this.router, this.dispatcher, this.deadLetter := router, dispatcher, deadLetter;
      this.history, this.persistence := history, persistence;
      this.validates, this.persists := validates, persists;
    }

    ghost function Config(): Settings {
      Settings(deadLetter.maxRecords, history.maxEntries, persistence.maxFileSize, persistence.length,
               validates, persists)
    }

    ghost function State(): BusState
      reads dispatcher, deadLetter, history, persistence
    {
      BusState(dispatcher.processedIds, deadLetter.State(), history.entries, persistence.State())
    }

    /** Dead letters and history for the results of one dispatch. */
    method HandleResults(e: Event, now: int, results: seq<Delivery>)
      modifies deadLetter, history
      ensures (deadLetter.State(), history.entries)
        == Handled(Config(), e, now, old(deadLetter.State()), old(history.entries), results)
    {
      for i := 0 to |results|
        invariant (deadLetter.State(), history.entries)
          == Handled(Config(), e, now, old(deadLetter.State()), old(history.entries), results[..i])
      {
        assert results[..i + 1][..i] == results[..i];
        if results[i].status.Failed? {
          var _ := deadLetter.Add(e, results[i].subscriber.name, now, 3);
        }
        history.Append(EntryFor(e, results[i]));
      }
      TakeAll(results);
    }

    /** The innermost handler of the middleware: route, dispatch, handle the results. */
    method Deliver(e: Event, mode: Mode, raising: set<Subscriber>, now: int)
        returns (r: Result<seq<Delivery>, PublishError>)
      modifies dispatcher, deadLetter, history
      ensures r == if mode.UnknownMode? && Receivers(router.routes, e) != [] then Err(UnknownDeliveryMode)
                   else Ok(Deliveries(e, Receivers(router.routes, e), mode, old(dispatcher.processedIds), raising).0)
      ensures r.Err? ==> State() == old(State())
      ensures r.Ok? ==>
        && dispatcher.processedIds
             == Deliveries(e, Receivers(router.routes, e), mode, old(dispatcher.processedIds), raising).1
        && (deadLetter.State(), history.entries)
             == Handled(Config(), e, now, old(deadLetter.State()), old(history.entries), r.value)
    {
      var subscribers := router.RouteEvent(e);
      if subscribers == [] {
        return Ok([]);
      }
      var results := dispatcher.Dispatch(e, subscribers, mode, raising);
      if results.Err? {
        return Err(UnknownDeliveryMode);
      }
      HandleResults(e, now, results.value);
      return Ok(results.value);
    }

    /** `publish`. When the store cannot be written the deliveries have already happened. */
    method Publish(e: Event, mode: Mode, raising: set<Subscriber>, now: int, stamp: nat)
        returns (r: Result<seq<Delivery>, PublishError>)
      modifies dispatcher, deadLetter, history, persistence
      ensures (State(), r)
        == PublishStep(Config(), old(State()), Call(e, mode, router.routes, raising, now, stamp))
    {
      if validates && e.source.text == "" {
        return Err(EmptySource);
      }
      r := Deliver(e, mode, raising, now);
      if r.Err? {
        return;
      }
      if persists {
        var written := persistence.WriteRecord(EventLine(e), stamp);
        if written.Err? {
          return Err(StoreMissing);
        }
      }
      history.Append(HistoryEntry(e, Published, None));
    }

    /** `requeue_dead_letter`: takes the oldest records off the queue and publishes their events,
        giving up at the first publish that raises. */
    method RequeueDeadLetter(count: int, surroundings: nat -> Surroundings)
        returns (r: Result<seq<Delivery>, PublishError>)
      modifies dispatcher, deadLetter, history, persistence
      ensures (State(), r) == Requeued(Config(), old(State()), router.routes, count, surroundings)
    {
      var records := deadLetter.Pop(count);
      var results: seq<Delivery> := [];
      ghost var start := State();
      for i := 0 to |records|
        invariant (State(), Ok(results)) == Republished(Config(), start, router.routes, records[..i], surroundings)
      {
        RepublishedNext(Config(), start, router.routes, records, i, surroundings);
        var s := surroundings(i);
        var more := Publish(records[i].event, AtLeastOnce, s.raising, s.now, s.stamp);
        if more.Err? {
          RepublishStops(Config(), start, router.routes, records, i + 1, surroundings);
          return Err(more.error);
        }
        results := results + more.value;
      }
      TakeAll(records);
      return Ok(results);
    }
  }

  /** What a publish inside a requeue meets. */
  datatype Surroundings = Surroundings(raising: set<Subscriber>, now: int, stamp: nat)

  function RequeueCall(routes: seq<Route>, record: DeadLetters.Record, s: Surroundings): Call {
    Call(record.event, AtLeastOnce, routes, s.raising, s.now, s.stamp)
  }

  function Republished(cfg: Settings, st: BusState, routes: seq<Route>, records: seq<DeadLetters.Record>,
                       surroundings: nat -> Surroundings): (BusState, Result<seq<Delivery>, PublishError>)
  {
    if records == [] then (st, Ok([]))
    else
      var i := |records| - 1;
      var (before, results) := Republished(cfg, st, routes, records[..i], surroundings);
      if results.Err? then (before, results)
      else
        var (after, more) := PublishStep(cfg, before, RequeueCall(routes, records[i], surroundings(i)));
        (after, if more.Err? then more else Ok(results.value + more.value))
  }

  function Requeued(cfg: Settings, st: BusState, routes: seq<Route>, count: int,
                    surroundings: nat -> Surroundings): (BusState, Result<seq<Delivery>, PublishError>)
  {
    var records := st.dead.records[..Cut(|st.dead.records|, count)];
    Republished(cfg, st.(dead := DeadLetters.Popped(st.dead, count)), routes, records, surroundings)
  }

  lemma {:induction false} RepublishedNext(cfg: Settings, st: BusState, routes: seq<Route>,
                                           records: seq<DeadLetters.Record>, i: nat, surroundings: nat -> Surroundings)
    requires i < |records| && Republished(cfg, st, routes, records[..i], surroundings).1.Ok?
    ensures var (before, results) := Republished(cfg, st, routes, records[..i], surroundings);
      var (after, more) := PublishStep(cfg, before, RequeueCall(routes, records[i], surroundings(i)));
      Republished(cfg, st, routes, records[..i + 1], surroundings)
        == (after, if more.Err? then more else Ok(results.value + more.value))
  {
    assert records[..i + 1][..i] == records[..i];
  }

  lemma {:induction false} RepublishStops(cfg: Settings, st: BusState, routes: seq<Route>,
                                          records: seq<DeadLetters.Record>, i: nat, surroundings: nat -> Surroundings)
    requires i <= |records| && Republished(cfg, st, routes, records[..i], surroundings).1.Err?
    ensures Republished(cfg, st, routes, records, surroundings)
      == Republished(cfg, st, routes, records[..i], surroundings)
  {
    if i < |records| {
      assert records[..|records| - 1][..i] == records[..i];
      RepublishStops(cfg, st, routes, records[..|records| - 1], i, surroundings);
    } else {
      TakeAll(records);
    }
  }

  // ---- one publish -----------------------------------------------------------------------------

  /** An accepted event gets one result for each receiver, in the receivers' order. */
  lemma {:induction false} OneResultPerReceiver(st: BusState, c: Call, i: nat)
    ensures |Results(st, c)| == |Receivers(c.routes, c.event)|
    ensures i < |Results(st, c)| ==>
      Results(st, c)[i].eventId == c.event.id && Results(st, c)[i].subscriber == Receivers(c.routes, c.event)[i]
  {
    if i < |Results(st, c)| {
      OneResultEach(c.event, Receivers(c.routes, c.event), c.mode, st.processed, c.raising, i);
    }
  }

  /** The dead letters the results call for. */
  function FailedRecords(e: Event, now: int, results: seq<Delivery>): seq<DeadLetters.Record> {
    if results == [] then []
    else
      var d := results[|results| - 1];
      FailedRecords(e, now, results[..|results| - 1]) + if d.status.Failed? then [RecordFor(e, now, d)] else []
  }

  /** The history entries the results call for, one each. */
  function EntriesFor(e: Event, results: seq<Delivery>): (entries: seq<HistoryEntry>)
    ensures |entries| == |results|
    ensures forall i :: 0 <= i < |results| ==> entries[i] == EntryFor(e, results[i])
  {
    if results == [] then []
    else EntriesFor(e, results[..|results| - 1]) + [EntryFor(e, results[|results| - 1])]
  }

  function DeadLettersIn(entries: seq<HistoryEntry>): nat {
    if entries == [] then 0
    else DeadLettersIn(entries[..|entries| - 1]) + if entries[|entries| - 1].action.DeadLettered? then 1 else 0
  }

  /** One dead letter for each failed result, one other entry for each other result. */
  lemma {:induction false} FailuresMatchEntries(e: Event, now: int, results: seq<Delivery>)
    ensures |FailedRecords(e, now, results)| == DeadLettersIn(EntriesFor(e, results))
  {
    if results != [] {
      FailuresMatchEntries(e, now, results[..|results| - 1]);
      var init := EntriesFor(e, results[..|results| - 1]);
      assert EntriesFor(e, results)[..|results| - 1] == init;
    }
  }

  lemma {:induction false} HandledMeaning(cfg: Settings, e: Event, now: int, dead: DeadLetters.Queue,
                                          history: seq<HistoryEntry>, results: seq<Delivery>)
    requires |history| <= cfg.maxHistory
    ensures Handled(cfg, e, now, dead, history, results).0
      == DeadLetters.AddedAll(dead, cfg.maxRecords, FailedRecords(e, now, results))
    ensures Handled(cfg, e, now, dead, history, results).1
      == LastOf(history + EntriesFor(e, results), cfg.maxHistory)
  {
    if results == [] {
      assert history + EntriesFor(e, results) == history;
    } else {
      var init, d := results[..|results| - 1], results[|results| - 1];
      HandledMeaning(cfg, e, now, dead, history, init);
      var failed := FailedRecords(e, now, init);
      if d.status.Failed? {
        assert (failed + [RecordFor(e, now, d)])[..|failed|] == failed;
      } else {
        assert failed + [] == failed;
      }
      LastOfAppend(history + EntriesFor(e, init), [EntryFor(e, d)], cfg.maxHistory);
      ConcatAssociative(history, EntriesFor(e, init), [EntryFor(e, d)]);
    }
  }

  function PublishedEntry(cfg: Settings, st: BusState, c: Call): seq<HistoryEntry> {
    if Stored(cfg, st.store, c).Err? then [] else [HistoryEntry(c.event, Published, None)]
  }

  /** What a call delivers, enters in the history and adds to the dead letters. */
  function CallDeliveries(cfg: Settings, st: BusState, c: Call): seq<Delivery> {
    if Rejected(cfg, c) then [] else Results(st, c)
  }

  function CallEntries(cfg: Settings, st: BusState, c: Call): seq<HistoryEntry> {
    if Rejected(cfg, c) then [] else EntriesFor(c.event, Results(st, c)) + PublishedEntry(cfg, st, c)
  }

  function CallFailures(cfg: Settings, st: BusState, c: Call): seq<DeadLetters.Record> {
    FailedRecords(c.event, c.now, CallDeliveries(cfg, st, c))
  }

  /** A rejected publish changes nothing, and it is rejected exactly for an empty source or an
      unknown mode with receivers. Any other publish raises only for an oversized record with no
      live file, and then its deliveries, dead letters and their history stay. */
  lemma {:induction false} PublishFailsExactly(cfg: Settings, st: BusState, c: Call)
    requires SizeKnown(st.store, cfg.length)
    ensures var (after, r) := PublishStep(cfg, st, c);
      && (r == Err(EmptySource) <==> cfg.validates && c.event.source.text == "")
      && (r == Err(UnknownDeliveryMode) <==>
            !(cfg.validates && c.event.source.text == "") && c.mode.UnknownMode?
            && Receivers(c.routes, c.event) != [])
      && (r.Err? && r.error != StoreMissing <==> Rejected(cfg, c))
      && (Rejected(cfg, c) ==> after == st)
      && (r == Err(StoreMissing) <==>
            && !Rejected(cfg, c) && cfg.persists && st.store.live.None?
            && cfg.length(EventLine(c.event)) > cfg.maxFileSize)
      && (r == Err(StoreMissing) ==> after == Dispatched(cfg, st, c))
      && (r.Ok? ==> r.value == Results(st, c))
  {
    WriteFailsExactly(st.store, EventLine(c.event), c.stamp, cfg.length, cfg.maxFileSize);
  }

  /** The first event of a store without a file, too large for one, is delivered; then its publish
      raises. */
  lemma {:induction false} RaisesAfterDelivery(cfg: Settings, st: BusState, e: Event, route: Route,
                                               now: int, stamp: nat)
    requires cfg.persists && st.store == Store(None, [], 0) && cfg.length(EventLine(e)) > cfg.maxFileSize
    requires e.source.text != "" && route.passes(e) && route.subscriber.Matches(e.kind)
    ensures var c := Call(e, AtLeastOnce, [route], {}, now, stamp);
      && PublishStep(cfg, st, c).1 == Err(StoreMissing)
      && CallDeliveries(cfg, st, c) == [Delivery(e.id, route.subscriber, Status.Delivered)]
  {
    var s := route.subscriber;
    assert [route][..0] == [] && Receivers([], e) == [];
    assert Receivers([route], e) == [] + [s] == [s];
    assert [s][..0] == [] && Deliveries(e, [], AtLeastOnce, st.processed, {}) == ([], st.processed);
  }

  /** Each failed result adds one dead letter in order, every result one history entry, an accepted
      publish one more; the bounded history is the end of the whole log. */
  lemma {:induction false} PublishAccounts(cfg: Settings, st: BusState, c: Call)
    requires |st.history| <= cfg.maxHistory
    ensures var after := PublishStep(cfg, st, c).0;
      && after.dead == DeadLetters.AddedAll(st.dead, cfg.maxRecords, CallFailures(cfg, st, c))
      && after.history == LastOf(st.history + CallEntries(cfg, st, c), cfg.maxHistory)
      && |after.history| <= cfg.maxHistory
  {
    if Rejected(cfg, c) {
      assert st.history + [] == st.history;
    } else {
      var entries := EntriesFor(c.event, Results(st, c));
      HandledMeaning(cfg, c.event, c.now, st.dead, st.history, Results(st, c));
      LastOfAppend(st.history + entries, PublishedEntry(cfg, st, c), cfg.maxHistory);
      ConcatAssociative(st.history, entries, PublishedEntry(cfg, st, c));
      assert st.history + entries + [] == st.history + entries;
    }
  }

  /** The receivers whose delivery fails, in order: not held back, handling the event's type, active
      and raising. */
  ghost function Failing(e: Event, subscribers: seq<Subscriber>, mode: Mode, processed: set<Id>,
                         raising: set<Subscriber>): seq<Subscriber>
  {
    if subscribers == [] then []
    else
      var init, s := subscribers[..|subscribers| - 1], subscribers[|subscribers| - 1];
      Failing(e, init, mode, processed, raising)
      + if !HeldBack(e, init, mode, processed, raising) && (s.kinds == [] || e.kind in s.kinds)
           && s.active && s in raising then [s] else []
  }

  /** One dead letter for each of the subscribers, after three tries. */
  ghost function LettersFor(e: Event, now: int, subscribers: seq<Subscriber>): (records: seq<DeadLetters.Record>)
    ensures |records| == |subscribers|
    ensures forall i :: 0 <= i < |records| ==> records[i] == DeadLetters.Record(e, subscribers[i].name, now, 3)
  {
    if subscribers == [] then []
    else
      var init, s := subscribers[..|subscribers| - 1], subscribers[|subscribers| - 1];
      LettersFor(e, now, init) + [DeadLetters.Record(e, s.name, now, 3)]
  }

  lemma {:induction false} FailuresExactly(e: Event, now: int, subscribers: seq<Subscriber>, mode: Mode,
                                           processed: set<Id>, raising: set<Subscriber>)
    ensures FailedRecords(e, now, Deliveries(e, subscribers, mode, processed, raising).0)
      == LettersFor(e, now, Failing(e, subscribers, mode, processed, raising))
  {
    if subscribers != [] {
      var n := |subscribers| - 1;
      var init, s := subscribers[..n], subscribers[n];
      FailuresExactly(e, now, init, mode, processed, raising);
      StatusExactly(e, subscribers, mode, processed, raising, n);
      OneResultEach(e, subscribers, mode, processed, raising, n);
      var results := Deliveries(e, subscribers, mode, processed, raising).0;
      assert results[..n] == Deliveries(e, init, mode, processed, raising).0;
      var failing := Failing(e, init, mode, processed, raising);
      assert (failing + [s])[..|failing|] == failing && failing + [] == failing;
    }
  }

  /** The dead letters after an accepted publish are those before and one for each failing receiver,
      in order, with this event, the receiver's name, the time and three tries: all of them on disk,
      the newest in memory. */
  lemma {:induction false} PublishDeadLetters(cfg: Settings, st: BusState, c: Call)
    requires |st.history| <= cfg.maxHistory && |st.dead.records| <= cfg.maxRecords && !Rejected(cfg, c)
    ensures var failing := Failing(c.event, Receivers(c.routes, c.event), c.mode, st.processed, c.raising);
      var letters := LettersFor(c.event, c.now, failing);
      var dead := PublishStep(cfg, st, c).0.dead;
      && CallFailures(cfg, st, c) == letters
      && DeadLetters.OnDisk(dead.disk) == DeadLetters.OnDisk(st.dead.disk) + letters
      && dead.records == DeadLetters.Newest(st.dead.records + letters, cfg.maxRecords)
  {
    FailuresExactly(c.event, c.now, Receivers(c.routes, c.event), c.mode, st.processed, c.raising);
    PublishAccounts(cfg, st, c);
    DeadLetters.AddedAllMeaning(st.dead, cfg.maxRecords, CallFailures(cfg, st, c));
  }

  /** The history entry an accepted publish makes for its i-th receiver: dead-lettered if the receiver
      fails, delivered if it takes the event, failed if it is held back or does not handle the type.
      One more entry follows, for the event itself, unless the store could not be written. */
  lemma {:induction false} EntriesExactly(cfg: Settings, st: BusState, c: Call, i: nat)
    requires !Rejected(cfg, c) && i < |Receivers(c.routes, c.event)|
    ensures var receivers := Receivers(c.routes, c.event);
      var s := receivers[i];
      var open := !HeldBack(c.event, receivers[..i], c.mode, st.processed, c.raising)
                  && (s.kinds == [] || c.event.kind in s.kinds);
      var entries := CallEntries(cfg, st, c);
      && |entries| == |receivers| + (if PublishStep(cfg, st, c).1.Ok? then 1 else 0)
      && (|entries| > |receivers| ==> entries[|receivers|] == HistoryEntry(c.event, Published, None))
      && entries[i] == HistoryEntry(c.event,
           if !open then Action.Failed else if s.active && s in c.raising then DeadLettered else Action.Delivered,
           Some(s.name))
  {
    StatusExactly(c.event, Receivers(c.routes, c.event), c.mode, st.processed, c.raising, i);
    OneResultPerReceiver(st, c, i);
    var entries := EntriesFor(c.event, Results(st, c));
    assert (entries + PublishedEntry(cfg, st, c))[..|entries|] == entries;
  }

  // ---- runs of publishes ---------------------------------------------------------------------

  function AfterCalls(cfg: Settings, st: BusState, calls: seq<Call>): BusState {
    if calls == [] then st
    else PublishStep(cfg, AfterCalls(cfg, st, calls[..|calls| - 1]), calls[|calls| - 1]).0
  }

  function RunDeliveries(cfg: Settings, st: BusState, calls: seq<Call>): seq<Delivery> {
    if calls == [] then []
    else
      var init := calls[..|calls| - 1];
      RunDeliveries(cfg, st, init) + CallDeliveries(cfg, AfterCalls(cfg, st, init), calls[|calls| - 1])
  }

  function RunEntries(cfg: Settings, st: BusState, calls: seq<Call>): seq<HistoryEntry> {
    if calls == [] then []
    else
      var init := calls[..|calls| - 1];
      RunEntries(cfg, st, init) + CallEntries(cfg, AfterCalls(cfg, st, init), calls[|calls| - 1])
  }

  function RunFailures(cfg: Settings, st: BusState, calls: seq<Call>): seq<DeadLetters.Record> {
    if calls == [] then []
    else
      var init := calls[..|calls| - 1];
      RunFailures(cfg, st, init) + CallFailures(cfg, AfterCalls(cfg, st, init), calls[|calls| - 1])
  }

  /** Over any run the history is the end of the log of everything that happened, and the dead
      letters are those there at first with every failure added in order: the newest of them in
      memory, all of them on disk. */
  lemma {:induction false} RunAccounts(cfg: Settings, st: BusState, calls: seq<Call>)
    requires |st.history| <= cfg.maxHistory
    ensures var after := AfterCalls(cfg, st, calls);
      && after.dead == DeadLetters.AddedAll(st.dead, cfg.maxRecords, RunFailures(cfg, st, calls))
      && after.history == LastOf(st.history + RunEntries(cfg, st, calls), cfg.maxHistory)
      && |after.history| <= cfg.maxHistory
    ensures |st.dead.records| <= cfg.maxRecords ==>
      var dead := AfterCalls(cfg, st, calls).dead;
      && dead.records == DeadLetters.Newest(st.dead.records + RunFailures(cfg, st, calls), cfg.maxRecords)
      && DeadLetters.OnDisk(dead.disk) == DeadLetters.OnDisk(st.dead.disk) + RunFailures(cfg, st, calls)
  {
    if |st.dead.records| <= cfg.maxRecords {
      DeadLetters.AddedAllMeaning(st.dead, cfg.maxRecords, RunFailures(cfg, st, calls));
    }
    RunLogs(cfg, st, calls);
  }

  lemma {:induction false} RunLogs(cfg: Settings, st: BusState, calls: seq<Call>)
    requires |st.history| <= cfg.maxHistory
    ensures var after := AfterCalls(cfg, st, calls);
      && after.dead == DeadLetters.AddedAll(st.dead, cfg.maxRecords, RunFailures(cfg, st, calls))
      && after.history == LastOf(st.history + RunEntries(cfg, st, calls), cfg.maxHistory)
      && |after.history| <= cfg.maxHistory
  {
    if calls == [] {
      assert st.history + [] == st.history;
    } else {
      var init, c := calls[..|calls| - 1], calls[|calls| - 1];
      RunLogs(cfg, st, init);
      var mid := AfterCalls(cfg, st, init);
      PublishAccounts(cfg, mid, c);
      DeadLetters.AddedAllConcat(st.dead, cfg.maxRecords, RunFailures(cfg, st, init), CallFailures(cfg, mid, c));
      LastOfAppend(st.history + RunEntries(cfg, st, init), CallEntries(cfg, mid, c), cfg.maxHistory);
      ConcatAssociative(st.history, RunEntries(cfg, st, init), CallEntries(cfg, mid, c));
    }
  }

  /** How many of the subscribers get an event that is not held back as processed. */
  function AbleCount(e: Event, subscribers: seq<Subscriber>, raising: set<Subscriber>): nat {
    if subscribers == [] then 0
    else
      AbleCount(e, subscribers[..|subscribers| - 1], raising)
      + if Able(e, subscribers[|subscribers| - 1], raising) then 1 else 0
  }

  /** The able receivers of a call. */
  function AbleReceivers(c: Call): nat {
    AbleCount(c.event, Receivers(c.routes, c.event), c.raising)
  }

  /** An accepted call for the id in a mode other than exactly-once. */
  predicate Unguarded(cfg: Settings, c: Call, id: Id) {
    c.event.id == id && c.mode != ExactlyOnce && !Rejected(cfg, c)
  }

  /** An accepted exactly-once call for the id with a receiver that can take it. */
  predicate Takes(cfg: Settings, c: Call, id: Id) {
    c.event.id == id && c.mode == ExactlyOnce && !Rejected(cfg, c) && AbleReceivers(c) > 0
  }

  /** The able receivers over the calls for the id in other modes. */
  function UnguardedDeliveries(cfg: Settings, calls: seq<Call>, id: Id): nat {
    if calls == [] then 0
    else
      var c := calls[|calls| - 1];
      UnguardedDeliveries(cfg, calls[..|calls| - 1], id) + if Unguarded(cfg, c, id) then AbleReceivers(c) else 0
  }

  /** The id is new and some exactly-once call for it can be taken. */
  ghost predicate TakenOnce(cfg: Settings, st: BusState, calls: seq<Call>, id: Id) {
    id !in st.processed && exists c :: c in calls && Takes(cfg, c, id)
  }

  lemma {:induction false} AbleExists(e: Event, subscribers: seq<Subscriber>, raising: set<Subscriber>)
    ensures AbleCount(e, subscribers, raising) > 0
      <==> exists j :: 0 <= j < |subscribers| && Able(e, subscribers[j], raising)
  {
    if subscribers != [] {
      AbleExists(e, subscribers[..|subscribers| - 1], raising);
    }
  }

  /** Without exactly-once every able subscriber gets the event, and nothing becomes processed. */
  lemma {:induction false} UnguardedCount(e: Event, subscribers: seq<Subscriber>, mode: Mode, processed: set<Id>,
                                          raising: set<Subscriber>, id: Id)
    requires mode != ExactlyOnce
    ensures var (results, after) := Deliveries(e, subscribers, mode, processed, raising);
      && Delivers(results, id) == (if e.id == id then AbleCount(e, subscribers, raising) else 0)
      && after == processed
  {
    if subscribers != [] {
      var init := subscribers[..|subscribers| - 1];
      UnguardedCount(e, init, mode, processed, raising, id);
      var all := Deliveries(e, subscribers, mode, processed, raising).0;
      assert all[..|all| - 1] == Deliveries(e, init, mode, processed, raising).0;
    }
  }

  /** What one call adds to the deliveries of an id, and when it marks the id as processed. */
  lemma {:induction false} CallCount(cfg: Settings, st: BusState, c: Call, id: Id)
    ensures id in PublishStep(cfg, st, c).0.processed <==> id in st.processed || Takes(cfg, c, id)
    ensures Delivers(CallDeliveries(cfg, st, c), id)
      == if Unguarded(cfg, c, id) then AbleReceivers(c) else if Takes(cfg, c, id) && id !in st.processed then 1 else 0
  {
    var receivers := Receivers(c.routes, c.event);
    if !Rejected(cfg, c) {
      if c.mode == ExactlyOnce {
        ProcessedGrows(c.event, receivers, c.mode, st.processed, c.raising);
        DeliversOnce(c.event, receivers, st.processed, c.raising, id);
        AbleExists(c.event, receivers, c.raising);
        if c.event.id !in st.processed {
          ProcessedWhenAble(c.event, receivers, st.processed, c.raising);
        }
      } else {
        UnguardedCount(c.event, receivers, c.mode, st.processed, c.raising, id);
      }
    }
  }

  /** How often an event id is delivered over any run, read off the calls: once for each able
      receiver of each accepted call in another mode, and once more if the id is new and some
      exactly-once call for it can be taken. */
  lemma {:induction false} DeliveryCount(cfg: Settings, st: BusState, calls: seq<Call>, id: Id)
    ensures Delivers(RunDeliveries(cfg, st, calls), id)
      == UnguardedDeliveries(cfg, calls, id) + if TakenOnce(cfg, st, calls, id) then 1 else 0
    ensures id in AfterCalls(cfg, st, calls).processed <==>
        id in st.processed || exists c :: c in calls && Takes(cfg, c, id)
  {
    if calls != [] {
      var init, c := calls[..|calls| - 1], calls[|calls| - 1];
      DeliveryCount(cfg, st, init, id);
      var mid := AfterCalls(cfg, st, init);
      CallCount(cfg, mid, c, id);
      DeliversConcat(RunDeliveries(cfg, st, init), CallDeliveries(cfg, mid, c), id);
      TakenNext(cfg, calls, id);
    }
  }

  lemma {:induction false} TakenNext(cfg: Settings, calls: seq<Call>, id: Id)
    requires calls != []
    ensures (exists c :: c in calls && Takes(cfg, c, id))
      <==> (exists c :: c in calls[..|calls| - 1] && Takes(cfg, c, id)) || Takes(cfg, calls[|calls| - 1], id)
  {
    var init, last := calls[..|calls| - 1], calls[|calls| - 1];
    assert last in calls;
    assert forall c :: c in calls <==> c in init || c == last;
  }

  /** An id is delivered at most once in a run if and only if the able receivers of its calls in
      other modes, with one more when an exactly-once call takes it, are at most one. */
  lemma {:induction false} AtMostOnceExactly(cfg: Settings, st: BusState, calls: seq<Call>, id: Id)
    ensures var unguarded := UnguardedDeliveries(cfg, calls, id);
      Delivers(RunDeliveries(cfg, st, calls), id) <= 1 <==>
        (unguarded == 0 || (unguarded == 1 && !TakenOnce(cfg, st, calls, id)))
  {
    DeliveryCount(cfg, st, calls, id);
  }

  ghost predicate AllExactlyOnce(calls: seq<Call>, id: Id) {
    forall c :: c in calls && c.event.id == id ==> c.mode == ExactlyOnce
  }

  /** If every publish of an event id asks for exactly-once, the id is delivered at most once over
      the whole run, whatever the routes, subscribers, failures and other publishes: once when it
      becomes processed during the run, never otherwise. */
  lemma {:induction false} AtMostOnce(cfg: Settings, st: BusState, calls: seq<Call>, id: Id)
    requires AllExactlyOnce(calls, id)
    ensures Delivers(RunDeliveries(cfg, st, calls), id)
      == if id in AfterCalls(cfg, st, calls).processed && id !in st.processed then 1 else 0
  {
    DeliveryCount(cfg, st, calls, id);
    NoneUnguarded(cfg, calls, id);
  }

  lemma {:induction false} NoneUnguarded(cfg: Settings, calls: seq<Call>, id: Id)
    requires AllExactlyOnce(calls, id)
    ensures UnguardedDeliveries(cfg, calls, id) == 0
  {
    if calls != [] {
      assert calls[|calls| - 1] in calls;
      NoneUnguarded(cfg, calls[..|calls| - 1], id);
    }
  }

  /** Other modes do not mark the id: publishing the same event at least once and then exactly
      once delivers it twice. */
  lemma {:induction false} MixedModesDeliverTwice(cfg: Settings, st: BusState, e: Event, route: Route)
    requires e.source.text != "" && e.id !in st.processed
    requires route.passes(e) && route.subscriber.Matches(e.kind)
    ensures var calls := [Call(e, AtLeastOnce, [route], {}, 0, 0), Call(e, ExactlyOnce, [route], {}, 0, 1)];
      Delivers(RunDeliveries(cfg, st, calls), e.id) == 2
  {
    var first, second := Call(e, AtLeastOnce, [route], {}, 0, 0), Call(e, ExactlyOnce, [route], {}, 0, 1);
    SoleReceiver(first, route);
    SoleReceiver(second, route);
    TwoCalls(cfg, first, second, e.id);
    DeliveryCount(cfg, st, [first, second], e.id);
  }

  lemma {:induction false} SoleReceiver(c: Call, route: Route)
    requires c.routes == [route] && route.passes(c.event) && Able(c.event, route.subscriber, c.raising)
    ensures AbleReceivers(c) == 1
  {
    var s := route.subscriber;
    assert [route][..0] == [] && Receivers([], c.event) == [];
    assert Receivers([route], c.event) == [] + [s] == [s];
    assert [s][..0] == [] && AbleCount(c.event, [], c.raising) == 0;
  }

  lemma {:induction false} TwoCalls(cfg: Settings, first: Call, second: Call, id: Id)
    requires Unguarded(cfg, first, id) && Takes(cfg, second, id)
    ensures UnguardedDeliveries(cfg, [first, second], id) == AbleReceivers(first)
    ensures exists c :: c in [first, second] && Takes(cfg, c, id)
  {
    var calls := [first, second];
    assert calls[..1] == [first] && [first][..0] == [];
    assert UnguardedDeliveries(cfg, [], id) == 0;
    assert UnguardedDeliveries(cfg, [first], id) == AbleReceivers(first);
    assert second in calls;
  }

  // ---- the store over runs ----------------------------------------------------------------------

  /** The writes of the accepted publishes. */
  function WritesOf(cfg: Settings, calls: seq<Call>): seq<Write> {
    if calls == [] then []
    else
      var c := calls[|calls| - 1];
      var before := WritesOf(cfg, calls[..|calls| - 1]);
      if Rejected(cfg, c) then before else before + [Write(EventLine(c.event), c.stamp)]
  }

  lemma {:induction false} RunStore(cfg: Settings, st: BusState, calls: seq<Call>)
    requires cfg.persists && AfterWrites(st.store, WritesOf(cfg, calls), cfg.length, cfg.maxFileSize).Ok?
    ensures AfterCalls(cfg, st, calls).store
      == AfterWrites(st.store, WritesOf(cfg, calls), cfg.length, cfg.maxFileSize).value
  {
    if calls != [] {
      var c := calls[|calls| - 1];
      var before := WritesOf(cfg, calls[..|calls| - 1]);
      if !Rejected(cfg, c) {
        assert WritesOf(cfg, calls)[..|before|] == before;
      }
      RunStore(cfg, st, calls[..|calls| - 1]);
    }
  }

  /** The events of the accepted publishes. */
  function AcceptedEvents(cfg: Settings, calls: seq<Call>): seq<Event> {
    if calls == [] then []
    else
      var c := calls[|calls| - 1];
      var before := AcceptedEvents(cfg, calls[..|calls| - 1]);
      if Rejected(cfg, c) then before else before + [c.event]
  }

  /** On any store, with records within the limit: archives and live file hold what they held
      followed by every accepted event once, in publishing order, if and only if no rotation falls
      on an archive that has lines. */
  lemma {:induction false} AcceptedEventsStored(cfg: Settings, st: BusState, calls: seq<Call>)
    requires cfg.persists && Kept(st.store, cfg.length, cfg.maxFileSize)
    requires AllFit(WritesOf(cfg, calls), cfg.length, cfg.maxFileSize)
    ensures var after := AfterCalls(cfg, st, calls).store;
      && Kept(after, cfg.length, cfg.maxFileSize)
      && (AllLines(after) == AllLines(st.store) + EventLines(AcceptedEvents(cfg, calls)) <==>
            NoClash(st.store, WritesOf(cfg, calls), cfg.length, cfg.maxFileSize))
  {
    RunKeepsEverything(st.store, WritesOf(cfg, calls), cfg.length, cfg.maxFileSize);
    RunStore(cfg, st, calls);
    LinesOfWrites(cfg, calls);
  }

  function EventLines(events: seq<Event>): (lines: seq<Line>)
    ensures |lines| == |events|
    ensures forall i :: 0 <= i < |events| ==> lines[i] == EventLine(events[i])
  {
    if events == [] then [] else EventLines(events[..|events| - 1]) + [EventLine(events[|events| - 1])]
  }

  lemma {:induction false} LinesOfWrites(cfg: Settings, calls: seq<Call>)
    ensures WrittenLines(WritesOf(cfg, calls)) == EventLines(AcceptedEvents(cfg, calls))
  {
    if calls != [] {
      LinesOfWrites(cfg, calls[..|calls| - 1]);
      var c := calls[|calls| - 1];
      if !Rejected(cfg, c) {
        var writes := WritesOf(cfg, calls[..|calls| - 1]);
        var events := AcceptedEvents(cfg, calls[..|calls| - 1]);
        assert (writes + [Write(EventLine(c.event), c.stamp)])[..|writes|] == writes;
        assert (events + [c.event])[..|events|] == events;
      }
    }
  }

  /** As long as no publish rotates, loading finds what it found before and then the accepted
      events that pass the filters, in publishing order. */
  lemma {:induction false} LoadFindsAccepted(cfg: Settings, st: BusState, calls: seq<Call>, f: Filters)
    requires cfg.persists && Kept(st.store, cfg.length, cfg.maxFileSize)
    requires AllFit(WritesOf(cfg, calls), cfg.length, cfg.maxFileSize)
    requires RotationStamps(st.store, WritesOf(cfg, calls), cfg.length, cfg.maxFileSize) == []
    ensures Matching(Content(AfterCalls(cfg, st, calls).store.live), f)
      == Matching(Content(st.store.live), f) + PassingEvents(AcceptedEvents(cfg, calls), f)
  {
    RunSucceeds(st.store, WritesOf(cfg, calls), cfg.length, cfg.maxFileSize);
    LiveKeepsAll(st.store, WritesOf(cfg, calls), cfg.length, cfg.maxFileSize);
    RunStore(cfg, st, calls);
    LinesOfWrites(cfg, calls);
    MatchingConcat(Content(st.store.live), EventLines(AcceptedEvents(cfg, calls)), f);
    MatchingEventLines(AcceptedEvents(cfg, calls), f);
  }

  lemma {:induction false} MatchingConcat(s: seq<Line>, t: seq<Line>, f: Filters)
    ensures Matching(s + t, f) == Matching(s, f) + Matching(t, f)
  {
    if t == [] {
      assert s + t == s;
    } else {
      assert (s + t)[..|s + t| - 1] == s + t[..|t| - 1];
      MatchingConcat(s, t[..|t| - 1], f);
    }
  }

  function PassingEvents(events: seq<Event>, f: Filters): seq<Event> {
    if events == [] then []
    else
      var e := events[|events| - 1];
      PassingEvents(events[..|events| - 1], f) + if Passes(f, e) then [e] else []
  }

  lemma {:induction false} MatchingEventLines(events: seq<Event>, f: Filters)
    ensures Matching(EventLines(events), f) == PassingEvents(events, f)
  {
    if events != [] {
      MatchingEventLines(events[..|events| - 1], f);
      assert EventLines(events)[..|events| - 1] == EventLines(events[..|events| - 1]);
    }
  }

  // ---- requeueing -------------------------------------------------------------------------------

  function RequeueCalls(routes: seq<Route>, records: seq<DeadLetters.Record>,
                        surroundings: nat -> Surroundings): seq<Call> {
    if records == [] then []
    else
      var i := |records| - 1;
      RequeueCalls(routes, records[..i], surroundings) + [RequeueCall(routes, records[i], surroundings(i))]
  }

  /** The calls republish the records' events in order, each at least once over the routes there are, in
      its own surroundings. */
  lemma {:induction false} RequeueCallsExactly(routes: seq<Route>, records: seq<DeadLetters.Record>,
                                               surroundings: nat -> Surroundings, i: nat)
    requires i < |records|
    ensures |RequeueCalls(routes, records, surroundings)| == |records|
    ensures var c, s := RequeueCalls(routes, records, surroundings)[i], surroundings(i);
      && c.event == records[i].event && c.mode == AtLeastOnce && c.routes == routes
      && c.raising == s.raising && c.now == s.now && c.stamp == s.stamp
  {
    var n := |records| - 1;
    if n > 0 {
      RequeueCallsExactly(routes, records[..n], surroundings, if i < n then i else 0);
    }
  }

  /** A requeue that does not raise is a run of publishes, one for each record taken off, oldest
      first: every event fails again into the queue or is gone from it. */
  lemma {:induction false} RequeueIsRun(cfg: Settings, st: BusState, routes: seq<Route>,
                                        records: seq<DeadLetters.Record>, surroundings: nat -> Surroundings)
    requires Republished(cfg, st, routes, records, surroundings).1.Ok?
    ensures Republished(cfg, st, routes, records, surroundings).0
      == AfterCalls(cfg, st, RequeueCalls(routes, records, surroundings))
    ensures Republished(cfg, st, routes, records, surroundings).1.value
      == RunDeliveries(cfg, st, RequeueCalls(routes, records, surroundings))
  {
    if records != [] {
      var i := |records| - 1;
      RequeueIsRun(cfg, st, routes, records[..i], surroundings);
      var calls := RequeueCalls(routes, records[..i], surroundings);
      var c := RequeueCall(routes, records[i], surroundings(i));
      assert RequeueCalls(routes, records, surroundings) == calls + [c];
      assert (calls + [c])[..|calls|] == calls;
    }
  }

  /** How many records are republished before the requeue ends: all, or up to the first whose
      publish raises. */
  function Tried(cfg: Settings, st: BusState, routes: seq<Route>, records: seq<DeadLetters.Record>,
                 surroundings: nat -> Surroundings): (n: nat)
    ensures n <= |records|
  {
    if records == [] then 0
    else
      var init := records[..|records| - 1];
      if Republished(cfg, st, routes, init, surroundings).1.Err? then Tried(cfg, st, routes, init, surroundings)
      else |records|
  }

  /** A requeue is a run of publishes over the records that were tried; it raises if and only if the
      last of these publishes does. */
  lemma {:induction false} RequeueTries(cfg: Settings, st: BusState, routes: seq<Route>,
                                        records: seq<DeadLetters.Record>, surroundings: nat -> Surroundings)
    ensures var n := Tried(cfg, st, routes, records, surroundings);
      var (after, r) := Republished(cfg, st, routes, records, surroundings);
      && after == AfterCalls(cfg, st, RequeueCalls(routes, records[..n], surroundings))
      && (n < |records| ==> r.Err?)
      && (r.Err? ==> n > 0)
  {
    if records != [] {
      var i := |records| - 1;
      var init := records[..i];
      RequeueTries(cfg, st, routes, init, surroundings);
      var n := Tried(cfg, st, routes, init, surroundings);
      if Republished(cfg, st, routes, init, surroundings).1.Err? {
        assert init[..n] == records[..n];
      } else {
        RequeueIsRun(cfg, st, routes, init, surroundings);
        var calls, c := RequeueCalls(routes, init, surroundings), RequeueCall(routes, records[i], surroundings(i));
        TakeAll(records);
        assert RequeueCalls(routes, records, surroundings) == calls + [c];
        assert (calls + [c])[..|calls|] == calls;
      }
    }
  }

  /** The dead letters after a requeue are those behind the records taken off and the failures of the
      publishes that were tried. The records taken off behind the first publish that raises are
      nowhere: not queued, not on disk, not published. */
  lemma {:induction false} RequeueAccounts(cfg: Settings, st: BusState, routes: seq<Route>, count: int,
                                           surroundings: nat -> Surroundings)
    requires |st.history| <= cfg.maxHistory && |st.dead.records| <= cfg.maxRecords
    ensures var k := Cut(|st.dead.records|, count);
      var taken, rest := st.dead.records[..k], st.dead.records[k..];
      var start := st.(dead := DeadLetters.Popped(st.dead, count));
      var calls := RequeueCalls(routes, taken[..Tried(cfg, start, routes, taken, surroundings)], surroundings);
      var after := Requeued(cfg, st, routes, count, surroundings).0;
      && after == AfterCalls(cfg, start, calls)
      && DeadLetters.OnDisk(after.dead.disk) == rest + RunFailures(cfg, start, calls)
      && after.dead.records == DeadLetters.Newest(rest + RunFailures(cfg, start, calls), cfg.maxRecords)
  {
    var k := Cut(|st.dead.records|, count);
    var taken := st.dead.records[..k];
    var start := st.(dead := DeadLetters.Popped(st.dead, count));
    RequeueTries(cfg, start, routes, taken, surroundings);
    var tried := Tried(cfg, start, routes, taken, surroundings);
    RunAccounts(cfg, start, RequeueCalls(routes, taken[..tried], surroundings));
    DeadLetters.LoadSaved(st.dead.records[k..]);
  }

  /** Its publish raises whatever came before: an empty source under validation, or, as the first one,
      a record over the limit while there is no live file. */
  predicate Unpublishable(cfg: Settings, st: BusState, records: seq<DeadLetters.Record>, i: nat)
    requires i < |records|
  {
    || (cfg.validates && records[i].event.source.text == "")
    || (i == 0 && cfg.persists && st.store.live.None?
        && cfg.length(EventLine(records[0].event)) > cfg.maxFileSize)
  }

  /** After publishes that did not raise the store has a live file, if any was made. */
  lemma {:induction false} RepublishedStore(cfg: Settings, st: BusState, routes: seq<Route>,
                                            records: seq<DeadLetters.Record>, surroundings: nat -> Surroundings)
    requires SizeKnown(st.store, cfg.length) && Republished(cfg, st, routes, records, surroundings).1.Ok?
    ensures var after := Republished(cfg, st, routes, records, surroundings).0;
      && SizeKnown(after.store, cfg.length)
      && (if cfg.persists && records != [] then after.store.live.Some? else after.store == st.store)
  {
    if records != [] {
      var i := |records| - 1;
      RepublishedStore(cfg, st, routes, records[..i], surroundings);
      var mid := Republished(cfg, st, routes, records[..i], surroundings).0;
      if cfg.persists {
        WriteKeepsSize(mid.store, EventLine(records[i].event), surroundings(i).stamp, cfg.length, cfg.maxFileSize);
      }
    }
  }

  ghost predicate SomeUnpublishable(cfg: Settings, st: BusState, records: seq<DeadLetters.Record>) {
    exists i :: 0 <= i < |records| && Unpublishable(cfg, st, records, i)
  }

  lemma {:induction false} UnpublishableNext(cfg: Settings, st: BusState, records: seq<DeadLetters.Record>)
    requires records != []
    ensures SomeUnpublishable(cfg, st, records) <==>
      SomeUnpublishable(cfg, st, records[..|records| - 1]) || Unpublishable(cfg, st, records, |records| - 1)
  {
    var init := records[..|records| - 1];
    if SomeUnpublishable(cfg, st, init) {
      var i :| 0 <= i < |init| && Unpublishable(cfg, st, init, i);
      assert Unpublishable(cfg, st, records, i);
    }
    if SomeUnpublishable(cfg, st, records) {
      var i :| 0 <= i < |records| && Unpublishable(cfg, st, records, i);
      assert i < |init| ==> Unpublishable(cfg, st, init, i);
    }
  }

  /** After publishes that did not raise, the next one raises exactly when its record is
      unpublishable. */
  lemma {:induction false} NextRaises(cfg: Settings, st: BusState, routes: seq<Route>,
                                      records: seq<DeadLetters.Record>, surroundings: nat -> Surroundings)
    requires SizeKnown(st.store, cfg.length) && records != []
    requires Republished(cfg, st, routes, records[..|records| - 1], surroundings).1.Ok?
    ensures Republished(cfg, st, routes, records, surroundings).1.Err? <==>
      Unpublishable(cfg, st, records, |records| - 1)
  {
    var last := |records| - 1;
    var mid := Republished(cfg, st, routes, records[..last], surroundings).0;
    RepublishedStore(cfg, st, routes, records[..last], surroundings);
    PublishFailsExactly(cfg, mid, RequeueCall(routes, records[last], surroundings(last)));
  }

  /** A requeue raises exactly when one of the records taken off is unpublishable, and ends with the
      first such record. */
  lemma {:induction false} RequeueRaisesExactly(cfg: Settings, st: BusState, routes: seq<Route>,
                                                records: seq<DeadLetters.Record>, surroundings: nat -> Surroundings)
    requires SizeKnown(st.store, cfg.length)
    ensures var raises := Republished(cfg, st, routes, records, surroundings).1.Err?;
      var n := Tried(cfg, st, routes, records, surroundings);
      && (raises <==> SomeUnpublishable(cfg, st, records))
      && (raises ==> 0 < n && Unpublishable(cfg, st, records, n - 1) && !SomeUnpublishable(cfg, st, records[..n - 1]))
  {
    if records != [] {
      var init := records[..|records| - 1];
      RequeueRaisesExactly(cfg, st, routes, init, surroundings);
      UnpublishableNext(cfg, st, records);
      if Republished(cfg, st, routes, init, surroundings).1.Ok? {
        NextRaises(cfg, st, routes, records, surroundings);
      } else {
        assert records[..Tried(cfg, st, routes, init, surroundings) - 1]
            == init[..Tried(cfg, st, routes, init, surroundings) - 1];
      }
    }
  }
}
