/** `events/dead_letter.py`: failed deliveries in memory and on disk. */
module DeadLetters {
  import opened Collections
  import opened EventModel

  datatype Record = Record(event: Event, subscriber: Id, failedAt: int, retryCount: nat)

  /** A line of the JSONL file: one that loads as a record, or one `_load` skips. */
  datatype Line = Good(record: Record) | Skipped

  /** The queue in memory, and the file (None when it does not exist). */
  datatype Queue = Queue(records: seq<Record>, disk: Option<seq<Line>>)

  // ---- the operations ---------------------------------------------------------------------

  function Loaded(lines: seq<Line>): seq<Record> {
    if lines == [] then []
    else
      var last := lines[|lines| - 1];
      Loaded(lines[..|lines| - 1]) + if last.Good? then [last.record] else []
  }

  /** What `_load` finds. */
  function OnDisk(disk: Option<seq<Line>>): seq<Record> {
    if disk.None? then [] else Loaded(disk.value)
  }

  /** What `_save_all` writes. */
  function Saved(records: seq<Record>): (lines: seq<Line>)
    ensures |lines| == |records|
    ensures forall i :: 0 <= i < |records| ==> lines[i] == Good(records[i])
  {
    seq(|records|, i requires 0 <= i < |records| => Good(records[i]))
  }

  /** The newest records, at most max of them. */
  function Newest(records: seq<Record>, max: nat): seq<Record> {
    if |records| > max then records[|records| - max..] else records
  }

  function Appended(disk: Option<seq<Line>>, r: Record): Option<seq<Line>> {
    Some((if disk.None? then [] else disk.value) + [Good(r)])
  }

  function Added(q: Queue, max: nat, r: Record): Queue {
    Queue(Newest(q.records + [r], max), Appended(q.disk, r))
  }

  function Popped(q: Queue, count: int): Queue {
    var rest := q.records[Cut(|q.records|, count)..];
    Queue(rest, Some(Saved(rest)))
  }

  /** Index of the first record for the event id, if any. */
  function FirstFor(records: seq<Record>, id: Id): (i: nat)
    ensures i <= |records|
    ensures i < |records| ==> records[i].event.id == id
    ensures forall j :: 0 <= j < i ==> records[j].event.id != id
  {
    if records == [] || records[0].event.id == id then 0 else 1 + FirstFor(records[1..], id)
  }

  function Removed(q: Queue, id: Id): Queue {
    var i := FirstFor(q.records, id);
    if i == |q.records| then q
    else
      var rest := q.records[..i] + q.records[i + 1..];
      Queue(rest, Some(Saved(rest)))
  }

  function Fresh(records: seq<Record>, cutoff: int): seq<Record> {
    if records == [] then []
    else
      var last := records[|records| - 1];
      Fresh(records[..|records| - 1], cutoff) + if last.failedAt > cutoff then [last] else []
  }

  function Cleaned(q: Queue, cutoff: int): Queue {
    var rest := Fresh(q.records, cutoff);
    if |rest| == |q.records| then Queue(rest, q.disk) else Queue(rest, Some(Saved(rest)))
  }

  class DeadLetterQueue {
    const maxRecords: nat
    const ttl: int
    var records: seq<Record>
    var disk: Option<seq<Line>>

    ghost function State(): Queue
      reads this
    {
      Queue(records, disk)
    }

    /** Opens the queue on a file, loading what it holds. */
    constructor (disk: Option<seq<Line>>, maxRecords: nat, ttl: int)
      ensures this.maxRecords == maxRecords && this.ttl == ttl
      ensures State() == Queue(OnDisk(disk), disk)
    {
      this.maxRecords, this.ttl, this.disk := maxRecords, ttl, disk;
      this.records := [];
      new;
      Load();
    }

    method Load()
      modifies this`records
      requires records == []
      ensures records == OnDisk(disk)
    {
      if disk.None? {
        return;
      }
      var lines := disk.value;
      for i := 0 to |lines|
        invariant records == Loaded(lines[..i])
      {
        assert lines[..i + 1][..i] == lines[..i];
        if lines[i].Good? {
          records := records + [lines[i].record];
        }
      }
      TakeAll(lines);
    }

    method AppendRecord(r: Record)
      modifies this`disk
      ensures disk == Appended(old(disk), r)
    {
      disk := Some((if disk.None? then [] else disk.value) + [Good(r)]);
    }

    method SaveAll()
      modifies this`disk
      ensures disk == Some(Saved(records))
    {
      var lines: seq<Line> := [];
      for i := 0 to |records|
        invariant lines == Saved(records[..i])
      {
        lines := lines + [Good(records[i])];
      }
      TakeAll(records);
      disk := Some(lines);
    }

    method EnforceMax()
      modifies this`records
      ensures records == Newest(old(records), maxRecords)
    {
      ghost var dropped := 0;
      while |records| > maxRecords
        invariant dropped <= |old(records)| && records == old(records)[dropped..]
        invariant dropped == 0 || |records| >= maxRecords
      {
        records := records[1..];
        dropped := dropped + 1;
      }
    }

    method Add(e: Event, subscriber: Id, now: int, retryCount: nat) returns (r: Record)
      modifies this
      ensures r == Record(e, subscriber, now, retryCount)
      ensures State() == Added(old(State()), maxRecords, r)
    {
      r := Record(e, subscriber, now, retryCount);
      records := records + [r];
      AppendRecord(r);
      EnforceMax();
    }

    method Peek(limit: int) returns (rs: seq<Record>)
      ensures rs == records[..Cut(|records|, limit)]
    {
      rs := records[..Cut(|records|, limit)];
    }

    method Pop(count: int) returns (out: seq<Record>)
      modifies this
      ensures out == old(records)[..Cut(|old(records)|, count)]
      ensures State() == Popped(old(State()), count)
    {
      out := records[..Cut(|records|, count)];
      records := records[Cut(|records|, count)..];
      SaveAll();
    }

    method Remove(id: Id) returns (found: bool)
      modifies this
      ensures State() == Removed(old(State()), id)
      ensures found <==> exists r :: r in old(records) && r.event.id == id
    {
      for i := 0 to |records|
        invariant records == old(records) && disk == old(disk)
        invariant i <= FirstFor(records, id)
      {
        if records[i].event.id == id {
          assert records[i] in old(records);
          records := records[..i] + records[i + 1..];
          SaveAll();
          return true;
        }
      }
      return false;
    }

    method Cleanup(now: int) returns (removed: nat)
      modifies this
      ensures State() == Cleaned(old(State()), now - ttl)
      ensures removed == |old(records)| - |records|
    {
      var cutoff := now - ttl;
      var before := |records|;
      FreshFits(records, cutoff);
      records := Fresh(records, cutoff);
      removed := before - |records|;
      if removed != 0 {
        SaveAll();
      }
    }

    method Clear()
      modifies this
      ensures State() == Queue([], None)
    {
      records := [];
      disk := None;
    }
  }

  lemma {:induction false} FreshFits(records: seq<Record>, cutoff: int)
    ensures |Fresh(records, cutoff)| <= |records|
    ensures |Fresh(records, cutoff)| == |records| ==> Fresh(records, cutoff) == records
    ensures forall r :: r in Fresh(records, cutoff) <==> r in records && r.failedAt > cutoff
  {
    if records != [] {
      FreshFits(records[..|records| - 1], cutoff);
      Snoc(records);
    }
  }

  // ---- what removal and cleanup leave --------------------------------------------------------

  /** A removal takes out the first record of the event and no other, in memory and on disk; without
      such a record it changes nothing. */
  lemma {:induction false} RemovedExactly(q: Queue, id: Id, i: nat)
    requires i <= |q.records| && (i < |q.records| ==> q.records[i].event.id == id)
    requires forall j :: 0 <= j < i ==> q.records[j].event.id != id
    ensures i == |q.records| ==> Removed(q, id) == q
    ensures i < |q.records| ==>
        && Removed(q, id).records == q.records[..i] + q.records[i + 1..]
        && OnDisk(Removed(q, id).disk) == q.records[..i] + q.records[i + 1..]
  {
    var k := FirstFor(q.records, id);
    assert k == i;
    if i < |q.records| {
      LoadSaved(q.records[..i] + q.records[i + 1..]);
    }
  }

  /** A cleanup leaves exactly the records that failed after the cutoff, in order, and rewrites the file
      with them if there is any other. */
  lemma {:induction false} CleanedExactly(q: Queue, cutoff: int, r: Record)
    ensures var after := Cleaned(q, cutoff);
      && Count(after.records, r) == (if r.failedAt > cutoff then Count(q.records, r) else 0)
      && InOrderOf(after.records, q.records)
      && if forall x :: x in q.records ==> x.failedAt > cutoff then after == q
         else OnDisk(after.disk) == after.records
  {
    FreshCounts(q.records, cutoff, r);
    FreshInOrder(q.records, cutoff);
    FreshFits(q.records, cutoff);
    LoadSaved(Fresh(q.records, cutoff));
    if forall x :: x in q.records ==> x.failedAt > cutoff {
      AllFresh(q.records, cutoff);
    }
  }

  lemma {:induction false} FreshCounts(records: seq<Record>, cutoff: int, r: Record)
    ensures Count(Fresh(records, cutoff), r) == if r.failedAt > cutoff then Count(records, r) else 0
  {
    if records != [] {
      var init, last := records[..|records| - 1], records[|records| - 1];
      FreshCounts(init, cutoff, r);
      Snoc(records);
      CountAppend(init, [last], r);
      CountAppend(Fresh(init, cutoff), if last.failedAt > cutoff then [last] else [], r);
    }
  }

  lemma {:induction false} FreshInOrder(records: seq<Record>, cutoff: int)
    ensures InOrderOf(Fresh(records, cutoff), records)
  {
    if records != [] {
      var init, last := records[..|records| - 1], records[|records| - 1];
      FreshInOrder(init, cutoff);
      FreshFits(init, cutoff);
      Snoc(records);
      InOrderSnoc(Fresh(init, cutoff), init, last, last.failedAt > cutoff);
    }
  }

  // ---- runs -------------------------------------------------------------------------------

  datatype Op = AddOp(record: Record) | PopOp(count: int) | RemoveOp(id: Id) | CleanupOp(cutoff: int)
              | ClearOp | ReopenOp

  function Step(q: Queue, max: nat, op: Op): Queue {
    match op
    case AddOp(r) => Added(q, max, r)
    case PopOp(count) => Popped(q, count)
    case RemoveOp(id) => Removed(q, id)
    case CleanupOp(cutoff) => Cleaned(q, cutoff)
    case ClearOp => Queue([], None)
    case ReopenOp => Queue(OnDisk(q.disk), q.disk)
  }

  function Run(q: Queue, max: nat, ops: seq<Op>): Queue {
    if ops == [] then q else Step(Run(q, max, ops[..|ops| - 1]), max, ops[|ops| - 1])
  }

  ghost predicate IsSuffix<T>(s: seq<T>, t: seq<T>) {
    |s| <= |t| && forall i :: 0 <= i < |s| ==> s[i] == t[|t| - |s| + i]
  }

  /** What reopening the file would load ends with what is in memory. */
  ghost predicate MemoryIsSuffix(q: Queue) {
    IsSuffix(q.records, OnDisk(q.disk))
  }

  lemma {:induction false} LoadSaved(records: seq<Record>)
    ensures Loaded(Saved(records)) == records
  {
    if records != [] {
      LoadSaved(records[..|records| - 1]);
      assert Saved(records)[..|records| - 1] == Saved(records[..|records| - 1]);
      Snoc(records);
    }
  }

  lemma {:induction false} AppendLoads(disk: Option<seq<Line>>, r: Record)
    ensures OnDisk(Appended(disk, r)) == OnDisk(disk) + [r]
  {
    var lines := if disk.None? then [] else disk.value;
    assert (lines + [Good(r)])[..|lines|] == lines;
    assert Loaded([]) == [];
  }

  lemma {:induction false} SuffixSnoc<T>(s: seq<T>, t: seq<T>, x: T)
    requires IsSuffix(s, t)
    ensures IsSuffix(s + [x], t + [x])
  {
  }

  lemma {:induction false} SuffixDrop<T>(s: seq<T>, t: seq<T>, k: nat)
    requires IsSuffix(s, t) && k <= |s|
    ensures IsSuffix(s[k..], t)
  {
  }

  lemma {:induction false} AddKeepsSuffix(q: Queue, max: nat, r: Record)
    requires MemoryIsSuffix(q)
    ensures MemoryIsSuffix(Added(q, max, r))
  {
    AppendLoads(q.disk, r);
    SuffixSnoc(q.records, OnDisk(q.disk), r);
    if |q.records| + 1 > max {
      SuffixDrop(q.records + [r], OnDisk(q.disk) + [r], |q.records| + 1 - max);
    }
  }

  lemma {:induction false} RewrittenIsSuffix(records: seq<Record>)
    ensures MemoryIsSuffix(Queue(records, Some(Saved(records))))
  {
    LoadSaved(records);
  }

  lemma {:induction false} SuffixSelf<T>(s: seq<T>)
    ensures IsSuffix(s, s)
  {
  }

  lemma {:induction false} PopKeepsSuffix(q: Queue, count: int)
    ensures MemoryIsSuffix(Popped(q, count))
  {
    RewrittenIsSuffix(Popped(q, count).records);
  }

  lemma {:induction false} RemoveKeepsSuffix(q: Queue, id: Id)
    requires MemoryIsSuffix(q)
    ensures MemoryIsSuffix(Removed(q, id))
  {
    if FirstFor(q.records, id) < |q.records| {
      RewrittenIsSuffix(Removed(q, id).records);
    }
  }

  lemma {:induction false} CleanupKeepsSuffix(q: Queue, cutoff: int)
    requires MemoryIsSuffix(q)
    ensures MemoryIsSuffix(Cleaned(q, cutoff))
  {
    FreshFits(q.records, cutoff);
    RewrittenIsSuffix(Fresh(q.records, cutoff));
  }

  /** Every operation keeps the memory a suffix of the file's records. */
  lemma {:induction false} StepKeepsSuffix(q: Queue, max: nat, op: Op)
    requires MemoryIsSuffix(q)
    ensures MemoryIsSuffix(Step(q, max, op))
  {
    match op {
      case AddOp(r) => AddKeepsSuffix(q, max, r);
      case PopOp(count) => PopKeepsSuffix(q, count);
      case RemoveOp(id) => RemoveKeepsSuffix(q, id);
      case CleanupOp(cutoff) => CleanupKeepsSuffix(q, cutoff);
      case ClearOp => SuffixSelf(OnDisk(None));
      case ReopenOp => SuffixSelf(OnDisk(q.disk));
    }
  }

  /** Over any run of a queue opened on any file, memory stays a suffix of the file. */
  lemma {:induction false} MemoryAlwaysSuffix(disk: Option<seq<Line>>, max: nat, ops: seq<Op>)
    ensures MemoryIsSuffix(Run(Queue(OnDisk(disk), disk), max, ops))
  {
    if ops != [] {
      MemoryAlwaysSuffix(disk, max, ops[..|ops| - 1]);
      StepKeepsSuffix(Run(Queue(OnDisk(disk), disk), max, ops[..|ops| - 1]), max, ops[|ops| - 1]);
    }
  }

  /** Operations that leave file and memory the same whatever was before: a pop, a removal that
      finds its event, a cleanup that expires something, a clear, and reopening. */
  ghost predicate Rewrites(q: Queue, op: Op) {
    match op
    case AddOp(_) => false
    case PopOp(_) => true
    case RemoveOp(id) => exists r :: r in q.records && r.event.id == id
    case CleanupOp(cutoff) => exists r :: r in q.records && r.failedAt <= cutoff
    case ClearOp => true
    case ReopenOp => true
  }

  lemma {:induction false} RewriteSynchronises(q: Queue, max: nat, op: Op)
    requires Rewrites(q, op)
    ensures OnDisk(Step(q, max, op).disk) == Step(q, max, op).records
  {
    match op {
      case PopOp(count) => LoadSaved(Popped(q, count).records);
      case RemoveOp(id) => LoadSaved(Removed(q, id).records);
      case CleanupOp(cutoff) =>
        FreshFits(q.records, cutoff);
        LoadSaved(Fresh(q.records, cutoff));
      case ClearOp =>
      case ReopenOp =>
    }
  }

  /** The other operations keep file and memory together exactly as long as no add overflows. */
  lemma {:induction false} StaysSynchronised(q: Queue, max: nat, op: Op)
    requires OnDisk(q.disk) == q.records && !Rewrites(q, op)
    ensures OnDisk(Step(q, max, op).disk) == Step(q, max, op).records
      <==> (op.AddOp? ==> |q.records| < max)
  {
    match op {
      case AddOp(r) =>
        AppendLoads(q.disk, r);
        assert |Step(q, max, op).records| == if |q.records| < max then |q.records| + 1 else max;
      case RemoveOp(id) =>
        NoneFor(q.records, id);
      case CleanupOp(cutoff) =>
        FreshFits(q.records, cutoff);
        AllFresh(q.records, cutoff);
    }
  }

  lemma {:induction false} NoneFor(records: seq<Record>, id: Id)
    requires forall r :: r in records ==> r.event.id != id
    ensures FirstFor(records, id) == |records|
  {
    if records != [] { NoneFor(records[1..], id); }
  }

  lemma {:induction false} AllFresh(records: seq<Record>, cutoff: int)
    requires forall r :: r in records ==> r.failedAt > cutoff
    ensures Fresh(records, cutoff) == records
  {
    if records != [] {
      AllFresh(records[..|records| - 1], cutoff);
      Snoc(records);
    }
  }

  /** An add leaves at most the maximum in memory, the new record last. */
  lemma {:induction false} AddBounded(q: Queue, max: nat, r: Record)
    ensures |Added(q, max, r).records| <= max
    ensures max > 0 ==> Added(q, max, r).records != [] && Added(q, max, r).records[|Added(q, max, r).records| - 1] == r
  {
  }

  // ---- first in, first out -------------------------------------------------------------

  /** The records an operation takes out of the queue: overflow for an add, the popped ones for a
      pop. */
  function Out(q: Queue, max: nat, op: Op): seq<Record>
    requires op.AddOp? || op.PopOp?
  {
    match op
    case AddOp(r) =>
      var all := q.records + [r];
      all[..|all| - |Newest(all, max)|]
    case PopOp(count) => q.records[..Cut(|q.records|, count)]
  }

  ghost predicate AddsAndPops(ops: seq<Op>) {
    forall op :: op in ops ==> op.AddOp? || op.PopOp?
  }

  function Outs(q: Queue, max: nat, ops: seq<Op>): seq<Record>
    requires AddsAndPops(ops)
  {
    if ops == [] then []
    else
      var init := ops[..|ops| - 1];
      Outs(q, max, init) + Out(Run(q, max, init), max, ops[|ops| - 1])
  }

  function Ins(ops: seq<Op>): seq<Record>
    requires AddsAndPops(ops)
  {
    if ops == [] then []
    else Ins(ops[..|ops| - 1]) + if ops[|ops| - 1].AddOp? then [ops[|ops| - 1].record] else []
  }

  /** Nothing is lost, duplicated or reordered: over any run of adds and pops, what came out
      followed by what is still there is what was there at first followed by what was added. */
  lemma {:induction false} FirstInFirstOut(q: Queue, max: nat, ops: seq<Op>)
    requires AddsAndPops(ops)
    ensures Outs(q, max, ops) + Run(q, max, ops).records == q.records + Ins(ops)
  {
    if ops != [] {
      var init, op := ops[..|ops| - 1], ops[|ops| - 1];
      FirstInFirstOut(q, max, init);
      var mid := Run(q, max, init);
      OutFirst(mid, max, op);
      var added := if op.AddOp? then [op.record] else [];
      ConcatAssociative(Outs(q, max, init), Out(mid, max, op), Step(mid, max, op).records);
      ConcatAssociative(Outs(q, max, init), mid.records, added);
      ConcatAssociative(q.records, Ins(init), added);
    }
  }

  lemma {:induction false} OutFirst(q: Queue, max: nat, op: Op)
    requires op.AddOp? || op.PopOp?
    ensures Out(q, max, op) + Step(q, max, op).records == q.records + if op.AddOp? then [op.record] else []
  {
  }

  // ---- several adds ------------------------------------------------------------------------

  /** The queue after adding some records. */
  function AddedAll(q: Queue, max: nat, records: seq<Record>): Queue {
    if records == [] then q else Added(AddedAll(q, max, records[..|records| - 1]), max, records[|records| - 1])
  }

  lemma {:induction false} AddedAllConcat(q: Queue, max: nat, first: seq<Record>, second: seq<Record>)
    ensures AddedAll(q, max, first + second) == AddedAll(AddedAll(q, max, first), max, second)
  {
    if second == [] {
      assert first + second == first;
    } else {
      assert (first + second)[..|first + second| - 1] == first + second[..|second| - 1];
      AddedAllConcat(q, max, first, second[..|second| - 1]);
    }
  }

  /** Adding keeps the newest records in memory and all of them on disk. */
  lemma {:induction false} AddedAllMeaning(q: Queue, max: nat, records: seq<Record>)
    requires |q.records| <= max
    ensures AddedAll(q, max, records).records == Newest(q.records + records, max)
    ensures OnDisk(AddedAll(q, max, records).disk) == OnDisk(q.disk) + records
  {
    if records == [] {
      assert q.records + records == q.records && OnDisk(q.disk) + records == OnDisk(q.disk);
    } else {
      var init, last := records[..|records| - 1], records[|records| - 1];
      AddedAllMeaning(q, max, init);
      Snoc(records);
      AppendLoads(AddedAll(q, max, init).disk, last);
      ConcatAssociative(q.records, init, [last]);
      ConcatAssociative(OnDisk(q.disk), init, [last]);
      NewestAppend(q.records + init, max, last);
    }
  }

  lemma {:induction false} NewestAppend(records: seq<Record>, max: nat, r: Record)
    ensures Newest(Newest(records, max) + [r], max) == Newest(records + [r], max)
  {
  }
}
