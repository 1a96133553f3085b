/** `events/replay.py`: replaying stored events through a handler. */
module Replaying {
  import opened Collections
  import opened EventModel
  import opened Persistence

  datatype SessionState = Running | Cancelled | Completed | Broken

  datatype Session = Session(state: SessionState, total: nat, processed: nat, succeeded: nat, failed: nat)

  datatype ReplayError = NoHandler

  datatype Request = Request(sessionId: Id, filters: Filters, limit: int)

  /** What happens while event number i is replayed: whether the handler raises, whether the
      progress callback raises, and whether one of them cancels this session. */
  datatype Outcome = Outcome(handlerRaises: bool, callbackRaises: bool, cancels: bool)

  type Oracle = nat -> Outcome

  /** `request.limit or 10000` */
  function LimitOf(request: Request): int {
    if request.limit == 0 then 10000 else request.limit
  }

  // ---- the specification -----------------------------------------------------------------

  /** How many of the first n events the handler takes. */
  function Succeeded(oracle: Oracle, n: nat): nat {
    if n == 0 then 0 else Succeeded(oracle, n - 1) + if oracle(n - 1).handlerRaises then 0 else 1
  }

  /** The counters once n events are handled. */
  function Counters(oracle: Oracle, total: nat, n: nat): (s: Session)
    ensures s.state == Running && s.total == total && s.processed == n
    ensures s.processed == s.succeeded + s.failed
  {
    SucceededFits(oracle, n);
    Session(Running, total, n, Succeeded(oracle, n), n - Succeeded(oracle, n))
  }

  lemma {:induction false} SucceededFits(oracle: Oracle, n: nat)
    ensures Succeeded(oracle, n) <= n
  {
    if n > 0 { SucceededFits(oracle, n - 1); }
  }

  /** Whether the session goes on after handling event i. */
  predicate GoesOn(oracle: Oracle, i: nat) {
    !oracle(i).callbackRaises && !oracle(i).cancels
  }

  /** How many events are handled, given that the first i are and no flag stands. */
  function StopsAt(oracle: Oracle, total: nat, i: nat): (n: nat)
    requires i <= total
    ensures i <= n <= total
    decreases total - i
  {
    if i == total then total
    else if !GoesOn(oracle, i) then i + 1
    else StopsAt(oracle, total, i + 1)
  }

  /** The number of events handled: none when a cancel flag already stands. */
  function Handled(oracle: Oracle, total: nat, flagged: bool): (n: nat)
    ensures n <= total
  {
    if flagged then 0 else StopsAt(oracle, total, 0)
  }

  /** The session goes on through every event but the last handled one, and stops early exactly
      there. */
  lemma {:induction false} HandledMeaning(oracle: Oracle, total: nat, flagged: bool, n: nat)
    requires n <= total
    ensures n == Handled(oracle, total, flagged) <==>
      if flagged then n == 0
      else && (forall i :: 0 <= i < n - 1 ==> GoesOn(oracle, i))
           && (n < total ==> n > 0 && !GoesOn(oracle, n - 1))
  {
    if !flagged {
      StopsAtMeaning(oracle, total, 0);
      var k := StopsAt(oracle, total, 0);
      if n < k {
        assert n == 0 || GoesOn(oracle, n - 1);
      } else if k < n {
        assert !GoesOn(oracle, k - 1);
      }
    }
  }

  lemma {:induction false} StopsAtMeaning(oracle: Oracle, total: nat, i: nat)
    requires i <= total
    ensures var n := StopsAt(oracle, total, i);
      && (forall j :: i <= j < n - 1 ==> GoesOn(oracle, j))
      && (n < total ==> i < n && !GoesOn(oracle, n - 1))
    decreases total - i
  {
    if i < total && GoesOn(oracle, i) {
      StopsAtMeaning(oracle, total, i + 1);
    }
  }

  /** The session at the end. A cancelled session's state is overwritten: it reads "completed"
      unless the progress callback raised. */
  function Ended(oracle: Oracle, total: nat, flagged: bool): Session {
    var n := Handled(oracle, total, flagged);
    var counters := Counters(oracle, total, n);
    if !flagged && n > 0 && oracle(n - 1).callbackRaises then counters.(state := Broken)
    else counters.(state := Completed)
  }

  /** Whether the cancel flag stands at the end: it is consumed only by a further event. */
  function FlagLeft(oracle: Oracle, total: nat, flagged: bool): bool {
    var n := Handled(oracle, total, flagged);
    if flagged then total == 0
    else n > 0 && oracle(n - 1).cancels && (n == total || oracle(n - 1).callbackRaises)
  }

  function WithFlag(flags: set<Id>, id: Id, stands: bool): set<Id> {
    if stands then flags + {id} else flags - {id}
  }

  /** With no flag at first: i events are handled so far, and the session stops here unless the
      last one lets it go on. */
  ghost predicate SoFar(oracle: Oracle, total: nat, i: nat)
    requires i <= total
  {
    StopsAt(oracle, total, 0) == if i > 0 && !GoesOn(oracle, i - 1) then i else StopsAt(oracle, total, i)
  }

  class ReplayEngine {
    const persistence: EventPersistence
    var sessions: map<Id, Session>
    var cancelFlags: set<Id>

    constructor (persistence: EventPersistence)
      ensures this.persistence == persistence && sessions == map[] && cancelFlags == {}
    {
      this.persistence, sessions, cancelFlags := persistence, map[], {};
    }

    /** `replay`. `handled` lists the events given to the handler, `reports` the calls of the
        progress callback. */
    method Replay(request: Request, hasHandler: bool, oracle: Oracle)
        returns (r: Result<Session, ReplayError>, handled: seq<Event>, reports: seq<(nat, nat)>)
      modifies this
      ensures !hasHandler ==>
        && r == Err(NoHandler) && handled == [] && reports == [] && cancelFlags == old(cancelFlags)
        && sessions == old(sessions)[request.sessionId := Session(Running, 0, 0, 0, 0)]
      ensures hasHandler ==>
        var events := FirstOf(Matching(Content(persistence.live), request.filters), LimitOf(request));
        var flagged := request.sessionId in old(cancelFlags);
        && handled == events[..Handled(oracle, |events|, flagged)]
        && r == Ok(Ended(oracle, |events|, flagged))
        && |reports| == |handled| && (forall i :: 0 <= i < |reports| ==> reports[i] == (i + 1, |events|))
        && sessions == old(sessions)[request.sessionId := r.value]
        && (request.sessionId in cancelFlags <==> FlagLeft(oracle, |events|, flagged))
        && cancelFlags - {request.sessionId} == old(cancelFlags) - {request.sessionId}
        && cancelFlags == WithFlag(old(cancelFlags), request.sessionId, FlagLeft(oracle, |events|, flagged))
    {
      var id := request.sessionId;
      handled, reports := [], [];
      sessions := sessions[id := Session(Running, 0, 0, 0, 0)];
      if !hasHandler {
        return Err(NoHandler), [], [];
      }
      var events := persistence.LoadEvents(request.filters, LimitOf(request));
      var session;
      session, handled, reports := PlayEvents(id, events, oracle);
      sessions := sessions[id := session];
      r := Ok(session);
    }

    /** The loop over the events. */
    method PlayEvents(id: Id, events: seq<Event>, oracle: Oracle)
        returns (session: Session, handled: seq<Event>, reports: seq<(nat, nat)>)
      modifies this`cancelFlags
      ensures var flagged := id in old(cancelFlags);
        && handled == events[..Handled(oracle, |events|, flagged)]
        && session == Ended(oracle, |events|, flagged)
        && |reports| == |handled| && (forall i :: 0 <= i < |reports| ==> reports[i] == (i + 1, |events|))
        && cancelFlags == WithFlag(old(cancelFlags), id, FlagLeft(oracle, |events|, flagged))
    {
      handled, reports := [], [];
      session := Session(Running, |events|, 0, 0, 0);
      var i, raised := 0, false;
      ghost var flagged := id in cancelFlags;
      while i < |events| && !raised
        invariant i <= |events| && session == Counters(oracle, |events|, i)
        invariant handled == events[..i]
        invariant |reports| == i && forall j :: 0 <= j < i ==> reports[j] == (j + 1, |events|)
        invariant cancelFlags == WithFlag(old(cancelFlags), id, if i == 0 then flagged else oracle(i - 1).cancels)
        invariant raised == (i > 0 && oracle(i - 1).callbackRaises)
        invariant i > 0 ==> !flagged
        invariant !flagged ==> SoFar(oracle, |events|, i)
        decreases |events| - i, !raised
      {
        if id in cancelFlags {
          session := session.(state := Cancelled);
          cancelFlags := cancelFlags - {id};
          break;
        }
        handled := handled + [events[i]];
        if oracle(i).handlerRaises {
          session := session.(failed := session.failed + 1);
        } else {
          session := session.(succeeded := session.succeeded + 1);
        }
        session := session.(processed := session.processed + 1);
        reports := reports + [(session.processed, session.total)];
        if oracle(i).cancels {
          cancelFlags := cancelFlags + {id};
        }
        raised := oracle(i).callbackRaises;
        i := i + 1;
      }
      session := session.(state := if raised then Broken else Completed);
    }

    /** `cancel`: also for sessions that ended. */
    method Cancel(sessionId: Id) returns (requested: bool)
      modifies this`cancelFlags
      ensures requested <==> sessionId in sessions
      ensures cancelFlags == if requested then old(cancelFlags) + {sessionId} else old(cancelFlags)
    {
      requested := sessionId in sessions;
      if requested {
        cancelFlags := cancelFlags + {sessionId};
      }
    }
  }

  // ---- what a session reports ---------------------------------------------------------------

  /** processed = succeeded + failed <= total, and it equals total unless a standing flag, a cancel
      or a failing callback stopped the session before its last event. */
  lemma {:induction false} SessionAddsUp(oracle: Oracle, total: nat, flagged: bool)
    ensures var s := Ended(oracle, total, flagged);
      && s.processed == s.succeeded + s.failed <= s.total == total
      && (s.processed == total <==>
            total == 0 || (!flagged && forall i :: 0 <= i < total - 1 ==> GoesOn(oracle, i)))
      && (s.state == Broken <==> s.processed > 0 && oracle(s.processed - 1).callbackRaises)
      && s.state != Cancelled && s.state != Running
  {
    var n := Handled(oracle, total, flagged);
    HandledMeaning(oracle, total, flagged, n);
    HandledMeaning(oracle, total, flagged, total);
  }

  /** What a session does, told by what happens at its events: with no flag standing it handles them in
      turn up to and with the first at which the progress callback raises or the session is cancelled;
      its counters tell apart the events whose handler did not raise; it ends broken exactly if the
      callback raised at the last one. */
  lemma {:induction false} SessionExactly(oracle: Oracle, total: nat)
    ensures var s := Ended(oracle, total, false);
      && s.total == total
      && (forall i: nat :: i < s.processed - 1 ==> !oracle(i).callbackRaises && !oracle(i).cancels)
      && (s.processed < total ==>
            s.processed > 0 && (oracle(s.processed - 1).callbackRaises || oracle(s.processed - 1).cancels))
      && s.succeeded == |TakenBy(oracle, s.processed)| && s.failed == s.processed - |TakenBy(oracle, s.processed)|
      && s.state == (if s.processed > 0 && oracle(s.processed - 1).callbackRaises then Broken else Completed)
  {
    var n := Handled(oracle, total, false);
    HandledMeaning(oracle, total, false, n);
    TakenCount(oracle, n);
    forall i: nat | i + 1 < n ensures !oracle(i).callbackRaises && !oracle(i).cancels {
      assert GoesOn(oracle, i);
    }
  }

  /** The events, of the first n, whose handler does not raise. */
  ghost function TakenBy(oracle: Oracle, n: nat): set<nat> {
    set i: nat | i < n && !oracle(i).handlerRaises
  }

  lemma {:induction false} TakenCount(oracle: Oracle, n: nat)
    ensures Succeeded(oracle, n) == |TakenBy(oracle, n)|
  {
    if n == 0 {
      assert TakenBy(oracle, 0) == {};
    } else {
      TakenCount(oracle, n - 1);
      var one := if oracle(n - 1).handlerRaises then {} else {n - 1 as nat};
      assert TakenBy(oracle, n) == TakenBy(oracle, n - 1) + one && n - 1 !in TakenBy(oracle, n - 1);
    }
  }

  /** The event at which the session ends with its flag set: a cancel during it, and none after it whose
      turn would find the flag. */
  ghost predicate LastCancelled(oracle: Oracle, total: nat, k: nat) {
    && k < total && oracle(k).cancels && (k == total - 1 || oracle(k).callbackRaises)
    && forall i: nat :: i < k ==> !oracle(i).callbackRaises && !oracle(i).cancels
  }

  /** A flag is left standing exactly by a cancel that no further event of the session meets, or, for a
      flag that stood before, when there is no event. */
  lemma {:induction false} FlagLeftExactly(oracle: Oracle, total: nat)
    ensures FlagLeft(oracle, total, true) <==> total == 0
    ensures FlagLeft(oracle, total, false) <==> exists k: nat :: LastCancelled(oracle, total, k)
  {
    var n := Handled(oracle, total, false);
    HandledMeaning(oracle, total, false, n);
    forall i: nat | i + 1 < n ensures !oracle(i).callbackRaises && !oracle(i).cancels {
      assert GoesOn(oracle, i);
    }
    if FlagLeft(oracle, total, false) {
      assert LastCancelled(oracle, total, n - 1);
    }
    if k: nat :| LastCancelled(oracle, total, k) {
      forall i | 0 <= i < k ensures GoesOn(oracle, i) {
        assert !oracle(i).callbackRaises && !oracle(i).cancels;
      }
      HandledMeaning(oracle, total, false, k + 1);
    }
  }

  /** How many of the matching events a request replays at most: as many as its limit, but at least
      one; 10000 if the limit is 0. */
  lemma {:induction false} ReplayLimit(request: Request, matching: seq<Event>)
    ensures var most := if request.limit == 0 then 10000 else if request.limit < 1 then 1 else request.limit;
      var events := FirstOf(matching, LimitOf(request));
      events == matching[..if |matching| < most then |matching| else most]
  {
  }

  /** A session that nobody disturbs handles every matching event and completes. */
  lemma {:induction false} UndisturbedReplay(oracle: Oracle, total: nat)
    requires forall i :: 0 <= i < total ==> GoesOn(oracle, i)
    ensures Ended(oracle, total, false).processed == total && Ended(oracle, total, false).state == Completed
    ensures !FlagLeft(oracle, total, false)
  {
    SessionAddsUp(oracle, total, false);
    assert total > 0 ==> GoesOn(oracle, total - 1);
  }

  /** A flag left by cancelling a finished session stops the next session of that id before its
      first event, which still reports completion. */
  lemma {:induction false} StaleFlagStops(oracle: Oracle, total: nat)
    requires total > 0
    ensures Ended(oracle, total, true) == Session(Completed, total, 0, 0, 0)
    ensures !FlagLeft(oracle, total, true)
  {
  }
}
