/** `events/persistence.py`: the rotating event store. */
module Persistence {
  import opened Collections
  import opened EventModel

  /** What a line of the store holds; lines that are blank, malformed or not an event load as
      nothing. */
  datatype Line = EventLine(event: Event) | EnvelopeLine(text: Id) | OtherLine(text: Id)

  datatype Archive = Archive(stamp: nat, lines: seq<Line>)

  /** The live file (None when it does not exist), the archives in rotation order, and the
      size the writer believes the live file to have. */
  datatype Store = Store(live: Option<seq<Line>>, archives: seq<Archive>, size: int)

  datatype StoreError = NoStoreToRotate

  datatype Filters = Filters(since: Option<int>, until: Option<int>, kinds: seq<Id>, source: Id)

  // ---- files and sizes -----------------------------------------------------------------

  function Content(file: Option<seq<Line>>): seq<Line> {
    if file.None? then [] else file.value
  }

  function Bytes(lines: seq<Line>, length: Line -> nat): nat {
    if lines == [] then 0 else Bytes(lines[..|lines| - 1], length) + length(lines[|lines| - 1])
  }

  /** Renaming onto an existing archive replaces it. */
  function Without(archives: seq<Archive>, stamp: nat): seq<Archive> {
    if archives == [] then []
    else
      var last := archives[|archives| - 1];
      var kept := Without(archives[..|archives| - 1], stamp);
      if last.stamp == stamp then kept else kept + [last]
  }

  function Rotated(st: Store, stamp: nat): Store
    requires st.live.Some?
  {
    Store(None, Without(st.archives, stamp) + [Archive(stamp, st.live.value)], 0)
  }

  predicate MustRotate(st: Store, line: Line, length: Line -> nat, max: int) {
    st.size + length(line) > max
  }

  function Append(st: Store, line: Line, length: Line -> nat): Store {
    Store(Some(Content(st.live) + [line]), st.archives, st.size + length(line))
  }

  /** `_write_record` at a time whose rotation stamp is given. */
  function Written(st: Store, line: Line, stamp: nat, length: Line -> nat, max: int): Result<Store, StoreError> {
    if !MustRotate(st, line, length, max) then Ok(Append(st, line, length))
    else if st.live.None? then Err(NoStoreToRotate)
    else Ok(Append(Rotated(st, stamp), line, length))
  }

  // ---- reading -------------------------------------------------------------------------------

  predicate Passes(f: Filters, e: Event) {
    && (f.since.Some? ==> e.time >= f.since.value)
    && (f.until.Some? ==> e.time <= f.until.value)
    && (f.kinds != [] ==> e.kind in f.kinds)
    && (f.source.text != "" ==> e.source == f.source)
  }

  /** The matching events in write order. */
  function Matching(lines: seq<Line>, f: Filters): seq<Event> {
    if lines == [] then []
    else
      var last := lines[|lines| - 1];
      Matching(lines[..|lines| - 1], f) + if last.EventLine? && Passes(f, last.event) then [last.event] else []
  }

  lemma {:induction false} MatchingPrefix(lines: seq<Line>, i: nat, f: Filters)
    requires i <= |lines|
    ensures Matching(lines[..i], f) <= Matching(lines, f)
  {
    if i < |lines| {
      assert lines[..|lines| - 1][..i] == lines[..i];
      MatchingPrefix(lines[..|lines| - 1], i, f);
    } else {
      TakeAll(lines);
    }
  }

  lemma {:induction false} MatchingNext(lines: seq<Line>, i: nat, f: Filters)
    requires i < |lines|
    ensures Matching(lines[..i + 1], f)
      == if lines[i].EventLine? && Passes(f, lines[i].event) then Matching(lines[..i], f) + [lines[i].event]
         else Matching(lines[..i], f)
  {
    assert lines[..i + 1][..i] == lines[..i];
  }

  /** What loading keeps of a file: of its lines that are events exactly those inside the time bounds, of
      a wanted kind and from the wanted source, each as often as it was written. */
  lemma {:induction false} MatchingExactly(lines: seq<Line>, f: Filters, e: Event)
    ensures var passes := (f.since.None? || f.since.value <= e.time) && (f.until.None? || e.time <= f.until.value)
                          && (f.kinds == [] || e.kind in f.kinds) && (f.source.text == "" || f.source == e.source);
      Count(Matching(lines, f), e) == if passes then Count(lines, EventLine(e)) else 0
  {
    if lines != [] {
      var n := |lines| - 1;
      MatchingExactly(lines[..n], f, e);
      Snoc(lines);
      CountAppend(lines[..n], [lines[n]], EventLine(e));
      var more := if lines[n].EventLine? && Passes(f, lines[n].event) then [lines[n].event] else [];
      CountAppend(Matching(lines[..n], f), more, e);
      assert Matching(lines, f) == Matching(lines[..n], f) + more;
    }
  }

  /** The events loaded are the first of the matching ones, as many as the limit, but at least one if
      there is one. */
  lemma {:induction false} LimitedExactly(events: seq<Event>, limit: int)
    ensures FirstOf(events, limit) <= events
    ensures limit <= |events| && 1 <= limit ==> |FirstOf(events, limit)| == limit
    ensures limit > |events| ==> FirstOf(events, limit) == events
    ensures limit < 1 && events != [] ==> |FirstOf(events, limit)| == 1
  {
  }

  /** The number of events asked for; the loop takes one before it looks at the limit. */
  function Wanted(limit: int): nat {
    if limit < 1 then 1 else limit
  }

  function FirstOf(events: seq<Event>, limit: int): seq<Event> {
    if |events| <= Wanted(limit) then events else events[..Wanted(limit)]
  }

  /** The matching events up to a line at which the limit is first reached are those asked for. */
  lemma {:induction false} LimitReached(lines: seq<Line>, i: nat, f: Filters, limit: int)
    requires i < |lines| && |Matching(lines[..i + 1], f)| == |Matching(lines[..i], f)| + 1
    requires Matching(lines[..i], f) == [] || |Matching(lines[..i], f)| < limit
    requires |Matching(lines[..i + 1], f)| >= limit
    ensures Matching(lines[..i + 1], f) == FirstOf(Matching(lines, f), limit)
  {
    MatchingPrefix(lines, i + 1, f);
  }

  class EventPersistence {
    const maxFileSize: int
    const length: Line -> nat
    var live: Option<seq<Line>>
    var archives: seq<Archive>
    var currentSize: int

    ghost function State(): Store
      reads this
    {
      Store(live, archives, currentSize)
    }

    constructor (live: Option<seq<Line>>, maxFileSize: int, length: Line -> nat)
      ensures this.maxFileSize == maxFileSize && this.length == length
      ensures State() == Store(live, [], Bytes(Content(live), length))
    {
      this.maxFileSize, this.length, this.live, this.archives := maxFileSize, length, live, [];
      this.currentSize := if live.None? then 0 else Bytes(live.value, length);
    }

    method Rotate(stamp: nat) returns (r: Result<nat, StoreError>)
      modifies this
      ensures old(live).Some? ==> r == Ok(stamp) && State() == Rotated(old(State()), stamp)
      ensures old(live).None? ==> r == Err(NoStoreToRotate) && State() == old(State())
    {
      if live.None? {
        return Err(NoStoreToRotate);
      }
      archives := Without(archives, stamp) + [Archive(stamp, live.value)];
      live := None;
      currentSize := 0;
      return Ok(stamp);
    }

    method WriteRecord(line: Line, stamp: nat) returns (r: Result<(), StoreError>)
      modifies this
      ensures r.Ok? <==> Written(old(State()), line, stamp, length, maxFileSize).Ok?
      ensures r.Ok? ==> State() == Written(old(State()), line, stamp, length, maxFileSize).value
      ensures r.Err? ==> State() == old(State())
    {
      if currentSize + length(line) > maxFileSize {
        var rotated := Rotate(stamp);
        if rotated.Err? {
          return Err(rotated.error);
        }
      }
      live := Some(Content(live) + [line]);
      currentSize := currentSize + length(line);
      return Ok(());
    }

    /** `load_events`: the first events of the live file that pass the filters. */
    method LoadEvents(f: Filters, limit: int) returns (events: seq<Event>)
      ensures events == FirstOf(Matching(Content(live), f), limit)
    {
      if live.None? {
        return [];
      }
      events := [];
      var lines := live.value;
      for i := 0 to |lines|
        invariant events == Matching(lines[..i], f) && (events == [] || |events| < limit)
      {
        MatchingNext(lines, i, f);
        if !lines[i].EventLine? || !Passes(f, lines[i].event) {
          continue;
        }
        events := events + [lines[i].event];
        if |events| >= limit {
          LimitReached(lines, i, f, limit);
          return;
        }
      }
      TakeAll(lines);
    }
  }

  // ---- what the files hold ------------------------------------------------------------------

  function ArchivedLines(archives: seq<Archive>): seq<Line> {
    if archives == [] then [] else ArchivedLines(archives[..|archives| - 1]) + archives[|archives| - 1].lines
  }

  /** The archives in rotation order, then the live file. */
  function AllLines(st: Store): seq<Line> {
    ArchivedLines(st.archives) + Content(st.live)
  }

  /** The lines of the archives with this stamp. */
  function Under(archives: seq<Archive>, stamp: nat): seq<Line> {
    if archives == [] then []
    else
      var last := archives[|archives| - 1];
      var under := Under(archives[..|archives| - 1], stamp);
      if last.stamp == stamp then under + last.lines else under
  }

  lemma {:induction false} WithoutUnused(archives: seq<Archive>, stamp: nat)
    requires Under(archives, stamp) == []
    ensures ArchivedLines(Without(archives, stamp)) == ArchivedLines(archives)
  {
    if archives != [] {
      var init, last := archives[..|archives| - 1], archives[|archives| - 1];
      assert |Under(archives, stamp)| == |Under(init, stamp)| + if last.stamp == stamp then |last.lines| else 0;
      WithoutUnused(init, stamp);
      if last.stamp != stamp {
        assert (Without(init, stamp) + [last])[..|Without(init, stamp)|] == Without(init, stamp);
      }
    }
  }

  lemma {:induction false} WithoutLength(archives: seq<Archive>, stamp: nat)
    ensures |ArchivedLines(Without(archives, stamp))| == |ArchivedLines(archives)| - |Under(archives, stamp)|
  {
    if archives != [] {
      var init, last := archives[..|archives| - 1], archives[|archives| - 1];
      WithoutLength(init, stamp);
      if last.stamp != stamp {
        assert (Without(init, stamp) + [last])[..|Without(init, stamp)|] == Without(init, stamp);
      }
    }
  }

  lemma {:induction false} RotatedLines(st: Store, stamp: nat)
    requires st.live.Some?
    ensures AllLines(Rotated(st, stamp)) == ArchivedLines(Without(st.archives, stamp)) + st.live.value
  {
    var kept := Without(st.archives, stamp);
    assert (kept + [Archive(stamp, st.live.value)])[..|kept|] == kept;
    assert ArchivedLines(kept) + st.live.value + [] == ArchivedLines(kept) + st.live.value;
  }

  lemma {:induction false} AppendLines(st: Store, line: Line, length: Line -> nat)
    ensures AllLines(Append(st, line, length)) == AllLines(st) + [line]
  {
    ConcatAssociative(ArchivedLines(st.archives), Content(st.live), [line]);
  }

  /** A successful write adds its line to what the files hold, in write order, and loses nothing,
      exactly when it does not rotate onto an archive that already has lines under its stamp. */
  lemma {:induction false} WriteLosesNothing(st: Store, line: Line, stamp: nat, length: Line -> nat, max: int)
    requires Written(st, line, stamp, length, max).Ok?
    ensures AllLines(Written(st, line, stamp, length, max).value) == AllLines(st) + [line]
      <==> !(MustRotate(st, line, length, max) && Under(st.archives, stamp) != [])
  {
    if MustRotate(st, line, length, max) {
      AppendLines(Rotated(st, stamp), line, length);
      RotatedLines(st, stamp);
      WithoutLength(st.archives, stamp);
      if Under(st.archives, stamp) == [] {
        WithoutUnused(st.archives, stamp);
      }
    } else {
      AppendLines(st, line, length);
    }
  }

  /** The writer's size is the live file's. */
  ghost predicate SizeKnown(st: Store, length: Line -> nat) {
    st.size == Bytes(Content(st.live), length)
  }

  /** No archive holds more than the limit, unless it is a single oversized record; nor does the
      live file. */
  ghost predicate Bounded(lines: seq<Line>, length: Line -> nat, max: int) {
    Bytes(lines, length) <= max || |lines| <= 1
  }

  ghost predicate AllBounded(st: Store, length: Line -> nat, max: int) {
    && Bounded(Content(st.live), length, max)
    && forall a :: a in st.archives ==> Bounded(a.lines, length, max)
  }

  lemma {:induction false} WithoutSubset(archives: seq<Archive>, stamp: nat)
    ensures forall a :: a in Without(archives, stamp) <==> a in archives && a.stamp != stamp
  {
    if archives != [] { WithoutSubset(archives[..|archives| - 1], stamp); }
  }

  lemma {:induction false} BytesSnoc(lines: seq<Line>, line: Line, length: Line -> nat)
    ensures Bytes(lines + [line], length) == Bytes(lines, length) + length(line)
  {
    assert (lines + [line])[..|lines|] == lines;
  }

  lemma {:induction false} RotateKeepsBounds(st: Store, stamp: nat, length: Line -> nat, max: int)
    requires st.live.Some? && AllBounded(st, length, max)
    ensures forall a :: a in Rotated(st, stamp).archives ==> Bounded(a.lines, length, max)
  {
    WithoutSubset(st.archives, stamp);
  }

  lemma {:induction false} OneLine(line: Line, length: Line -> nat)
    ensures [] + [line] == [line] && Bytes([line], length) == length(line)
  {
    BytesSnoc([], line, length);
    assert [] + [line] == [line];
  }

  /** Writing keeps the size exact and every file bounded. */
  lemma {:induction false} WriteKeepsBounds(st: Store, line: Line, stamp: nat, length: Line -> nat, max: int)
    requires SizeKnown(st, length) && AllBounded(st, length, max)
    requires Written(st, line, stamp, length, max).Ok?
    ensures SizeKnown(Written(st, line, stamp, length, max).value, length)
    ensures AllBounded(Written(st, line, stamp, length, max).value, length, max)
  {
    if MustRotate(st, line, length, max) {
      RotateKeepsBounds(st, stamp, length, max);
      OneLine(line, length);
    } else {
      BytesSnoc(Content(st.live), line, length);
    }
  }

  lemma {:induction false} WriteKeepsSize(st: Store, line: Line, stamp: nat, length: Line -> nat, max: int)
    requires SizeKnown(st, length) && Written(st, line, stamp, length, max).Ok?
    ensures SizeKnown(Written(st, line, stamp, length, max).value, length)
    ensures Written(st, line, stamp, length, max).value.live.Some?
  {
    if MustRotate(st, line, length, max) {
      OneLine(line, length);
    } else {
      BytesSnoc(Content(st.live), line, length);
    }
  }

  /** A write fails exactly when its record exceeds the limit and there is no live file. */
  lemma {:induction false} WriteFailsExactly(st: Store, line: Line, stamp: nat, length: Line -> nat, max: int)
    requires SizeKnown(st, length)
    ensures Written(st, line, stamp, length, max).Err? <==> length(line) > max && st.live.None?
  {
  }

  // ---- runs of writes --------------------------------------------------------------------------

  datatype Write = Write(line: Line, stamp: nat)

  function AfterWrites(st: Store, writes: seq<Write>, length: Line -> nat, max: int): Result<Store, StoreError> {
    if writes == [] then Ok(st)
    else
      var before := AfterWrites(st, writes[..|writes| - 1], length, max);
      var w := writes[|writes| - 1];
      if before.Err? then before else Written(before.value, w.line, w.stamp, length, max)
  }

  function WrittenLines(writes: seq<Write>): seq<Line> {
    if writes == [] then [] else WrittenLines(writes[..|writes| - 1]) + [writes[|writes| - 1].line]
  }

  ghost predicate AllFit(writes: seq<Write>, length: Line -> nat, max: int) {
    forall w :: w in writes ==> length(w.line) <= max
  }

  ghost predicate AllWithin(st: Store, length: Line -> nat, max: int) {
    && Bytes(Content(st.live), length) <= max
    && forall a :: a in st.archives ==> Bytes(a.lines, length) <= max
  }

  /** A record within the limit keeps every file within it. */
  lemma {:induction false} WriteKeepsWithin(st: Store, line: Line, stamp: nat, length: Line -> nat, max: int)
    requires SizeKnown(st, length) && AllWithin(st, length, max) && length(line) <= max
    requires Written(st, line, stamp, length, max).Ok?
    ensures SizeKnown(Written(st, line, stamp, length, max).value, length)
    ensures AllWithin(Written(st, line, stamp, length, max).value, length, max)
  {
    if MustRotate(st, line, length, max) {
      WithoutSubset(st.archives, stamp);
      OneLine(line, length);
    } else {
      BytesSnoc(Content(st.live), line, length);
    }
  }

  /** The stamps of the writes that rotate. */
  function RotationStamps(st: Store, writes: seq<Write>, length: Line -> nat, max: int): seq<nat> {
    if writes == [] then []
    else
      var init, w := writes[..|writes| - 1], writes[|writes| - 1];
      var earlier := RotationStamps(st, init, length, max);
      var before := AfterWrites(st, init, length, max);
      if before.Ok? && MustRotate(before.value, w.line, length, max) then earlier + [w.stamp] else earlier
  }

  /** No rotation falls on an archive that has lines: the rotations' stamps differ, and none is
      that of a non-empty archive found at the start. */
  ghost predicate NoClash(st: Store, writes: seq<Write>, length: Line -> nat, max: int) {
    var stamps := RotationStamps(st, writes, length, max);
    Distinct(stamps) && forall s :: s in stamps ==> Under(st.archives, s) == []
  }

  /** A store as the writer keeps it: its size known, no file over the limit. */
  ghost predicate Kept(st: Store, length: Line -> nat, max: int) {
    SizeKnown(st, length) && AllWithin(st, length, max)
  }

  lemma {:induction false} FitInit(writes: seq<Write>, length: Line -> nat, max: int)
    requires writes != [] && AllFit(writes, length, max)
    ensures AllFit(writes[..|writes| - 1], length, max) && length(writes[|writes| - 1].line) <= max
  {
    assert writes[|writes| - 1] in writes;
    assert forall x :: x in writes[..|writes| - 1] ==> x in writes;
  }

  /** Records within the limit are always written, and every file stays within it. */
  lemma {:induction false} RunSucceeds(st: Store, writes: seq<Write>, length: Line -> nat, max: int)
    requires Kept(st, length, max) && AllFit(writes, length, max)
    ensures var r := AfterWrites(st, writes, length, max);
      r.Ok? && Kept(r.value, length, max)
  {
    if writes != [] {
      var init, w := writes[..|writes| - 1], writes[|writes| - 1];
      FitInit(writes, length, max);
      RunSucceeds(st, init, length, max);
      var mid := AfterWrites(st, init, length, max).value;
      WriteFailsExactly(mid, w.line, w.stamp, length, max);
      WriteKeepsWithin(mid, w.line, w.stamp, length, max);
    }
  }

  /** A file that is rotated out to make room for a record within the limit is not empty. */
  lemma {:induction false} RotatedNotEmpty(st: Store, line: Line, length: Line -> nat, max: int)
    requires SizeKnown(st, length) && length(line) <= max && MustRotate(st, line, length, max)
    ensures st.live.Some? && st.live.value != []
  {
  }

  lemma {:induction false} UnderWithout(archives: seq<Archive>, stamp: nat, s: nat)
    ensures Under(Without(archives, stamp), s) == if s == stamp then [] else Under(archives, s)
  {
    if archives != [] {
      var init, last := archives[..|archives| - 1], archives[|archives| - 1];
      UnderWithout(init, stamp, s);
      if last.stamp != stamp {
        var kept := Without(init, stamp);
        assert (kept + [last])[..|kept|] == kept;
      }
    }
  }

  lemma {:induction false} UnderRotated(st: Store, stamp: nat, s: nat)
    requires st.live.Some?
    ensures Under(Rotated(st, stamp).archives, s) == if s == stamp then st.live.value else Under(st.archives, s)
  {
    var kept := Without(st.archives, stamp);
    UnderWithout(st.archives, stamp, s);
    assert (kept + [Archive(stamp, st.live.value)])[..|kept|] == kept;
    assert [] + st.live.value == st.live.value;
  }

  /** After a run the stamps with archived lines are those from the start and the rotations'. */
  lemma {:induction false} StampsUsed(st: Store, writes: seq<Write>, length: Line -> nat, max: int, s: nat)
    requires Kept(st, length, max) && AllFit(writes, length, max)
    requires AfterWrites(st, writes, length, max).Ok?
    ensures Under(AfterWrites(st, writes, length, max).value.archives, s) != []
      <==> s in RotationStamps(st, writes, length, max) || Under(st.archives, s) != []
  {
    if writes != [] {
      var init, w := writes[..|writes| - 1], writes[|writes| - 1];
      FitInit(writes, length, max);
      RunSucceeds(st, init, length, max);
      StampsUsed(st, init, length, max, s);
      var mid := AfterWrites(st, init, length, max).value;
      if MustRotate(mid, w.line, length, max) {
        RotatedNotEmpty(mid, w.line, length, max);
        UnderRotated(mid, w.stamp, s);
      }
    }
  }

  lemma {:induction false} DistinctLast(s: seq<nat>, x: nat)
    ensures Distinct(s + [x]) <==> Distinct(s) && x !in s
  {
    if Distinct(s + [x]) {
      forall i, j | 0 <= i < j < |s| ensures s[i] != s[j] {
        assert (s + [x])[i] != (s + [x])[j];
      }
      forall i | 0 <= i < |s| ensures s[i] != x {
        assert (s + [x])[i] != (s + [x])[|s|];
      }
    }
  }

  /** One more write clashes exactly when it rotates onto an archive that has lines by then. */
  lemma {:induction false} NoClashNext(st: Store, writes: seq<Write>, length: Line -> nat, max: int)
    requires writes != [] && Kept(st, length, max) && AllFit(writes, length, max)
    ensures var init, w := writes[..|writes| - 1], writes[|writes| - 1];
      && AfterWrites(st, init, length, max).Ok?
      && var mid := AfterWrites(st, init, length, max).value;
         (NoClash(st, writes, length, max) <==>
           && NoClash(st, init, length, max)
           && !(MustRotate(mid, w.line, length, max) && Under(mid.archives, w.stamp) != []))
  {
    var init, w := writes[..|writes| - 1], writes[|writes| - 1];
    FitInit(writes, length, max);
    RunSucceeds(st, init, length, max);
    StampsUsed(st, init, length, max, w.stamp);
    DistinctLast(RotationStamps(st, init, length, max), w.stamp);
  }

  /** A write adds at most its line, and loses one at least when it clashes. */
  lemma {:induction false} WriteLength(st: Store, line: Line, stamp: nat, length: Line -> nat, max: int)
    requires Written(st, line, stamp, length, max).Ok?
    ensures var n := |AllLines(Written(st, line, stamp, length, max).value)|;
      && n <= |AllLines(st)| + 1
      && (MustRotate(st, line, length, max) && Under(st.archives, stamp) != [] ==> n < |AllLines(st)| + 1)
  {
    if MustRotate(st, line, length, max) {
      AppendLines(Rotated(st, stamp), line, length);
      RotatedLines(st, stamp);
      WithoutLength(st.archives, stamp);
    } else {
      AppendLines(st, line, length);
    }
  }

  /** On any store, with records within the limit, every write succeeds and no file exceeds the
      limit; and the files hold what they held followed by exactly the records written, in order,
      if and only if no rotation falls on an archive that has lines. A clash loses lines for good. */
  lemma {:induction false} RunKeepsEverything(st: Store, writes: seq<Write>, length: Line -> nat, max: int)
    requires Kept(st, length, max) && AllFit(writes, length, max)
    ensures var r := AfterWrites(st, writes, length, max);
      && r.Ok? && Kept(r.value, length, max)
      && (AllLines(r.value) == AllLines(st) + WrittenLines(writes) <==> NoClash(st, writes, length, max))
      && (!NoClash(st, writes, length, max) ==> |AllLines(r.value)| < |AllLines(st)| + |writes|)
  {
    RunSucceeds(st, writes, length, max);
    WrittenLength(writes);
    if writes == [] {
      assert AllLines(st) + [] == AllLines(st);
    } else {
      var init, w := writes[..|writes| - 1], writes[|writes| - 1];
      FitInit(writes, length, max);
      RunKeepsEverything(st, init, length, max);
      WrittenLength(init);
      NoClashNext(st, writes, length, max);
      var mid := AfterWrites(st, init, length, max).value;
      WriteLosesNothing(mid, w.line, w.stamp, length, max);
      WriteLength(mid, w.line, w.stamp, length, max);
      ConcatAssociative(AllLines(st), WrittenLines(init), [w.line]);
    }
  }

  lemma {:induction false} WrittenLength(writes: seq<Write>)
    ensures |WrittenLines(writes)| == |writes|
  {
    if writes != [] { WrittenLength(writes[..|writes| - 1]); }
  }

  /** The live file still holds everything it held and everything written exactly when nothing
      rotated; until then clock readings do not matter. */
  lemma {:induction false} LiveKeepsAll(st: Store, writes: seq<Write>, length: Line -> nat, max: int)
    requires Kept(st, length, max) && AllFit(writes, length, max)
    requires AfterWrites(st, writes, length, max).Ok?
    ensures var live := Content(AfterWrites(st, writes, length, max).value.live);
      && (live == Content(st.live) + WrittenLines(writes) <==> RotationStamps(st, writes, length, max) == [])
      && (RotationStamps(st, writes, length, max) != [] ==> |live| < |Content(st.live)| + |writes|)
  {
    WrittenLength(writes);
    if writes == [] {
      assert Content(st.live) + [] == Content(st.live);
    } else {
      var init, w := writes[..|writes| - 1], writes[|writes| - 1];
      FitInit(writes, length, max);
      RunSucceeds(st, init, length, max);
      LiveKeepsAll(st, init, length, max);
      WrittenLength(init);
      var mid := AfterWrites(st, init, length, max).value;
      if MustRotate(mid, w.line, length, max) {
        RotatedNotEmpty(mid, w.line, length, max);
      } else {
        ConcatAssociative(Content(st.live), WrittenLines(init), [w.line]);
      }
    }
  }

  /** Three records of which no two fit together, all written in one second: both rotations take the
      same stamp, and the first record is lost. */
  lemma {:induction false} StampClashLoses(a: Line, b: Line, c: Line, stamp: nat, length: Line -> nat, max: int)
    requires length(a) <= max && length(b) <= max && length(c) <= max
    requires length(a) + length(b) > max && length(b) + length(c) > max
    ensures AfterWrites(Store(None, [], 0), [Write(a, stamp), Write(b, stamp), Write(c, stamp)], length, max)
      == Ok(Store(Some([c]), [Archive(stamp, [b])], length(c)))
  {
    var wa, wb, wc := Write(a, stamp), Write(b, stamp), Write(c, stamp);
    var s1 := Store(Some([a]), [], length(a));
    var s2 := Store(Some([b]), [Archive(stamp, [a])], length(b));
    assert [wa, wb, wc][..2] == [wa, wb] && [wa, wb][..1] == [wa] && [wa][..0] == [];
    assert [] + [a] == [a] && [] + [b] == [b] && [] + [c] == [c];
    assert AfterWrites(Store(None, [], 0), [wa], length, max) == Ok(s1);
    assert Without([], stamp) + [Archive(stamp, [a])] == [Archive(stamp, [a])];
    assert AfterWrites(Store(None, [], 0), [wa, wb], length, max) == Ok(s2);
    assert [Archive(stamp, [a])][..0] == [];
    assert Without([Archive(stamp, [a])], stamp) == [];
    assert [] + [Archive(stamp, [b])] == [Archive(stamp, [b])];
  }
}
