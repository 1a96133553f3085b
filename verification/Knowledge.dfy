/** `memory/knowledge.py`: knowledge entries with domain and tag indexes. */
module Knowledge {
  import opened Collections
  import opened Sorting

  datatype Entry = Entry(id: Id, title: string, content: string, summary: string, domain: Id, tags: seq<Id>,
                         relationships: seq<Id>, sources: seq<Id>, confidence: real, version: int,
                         createdAt: int, updatedAt: Option<int>)

  type Index = map<Id, set<Id>>

  /** The entries in insertion order and the two indexes. */
  datatype Base = Base(entries: Dict<Id, Entry>, domains: Index, tags: Index)

  /** One entry of the saved file; its data may not be an entry's at all. */
  datatype Saved = Saved(key: Id, entry: Option<Entry>)

  /** The range check of the constructor, which adding and loading run and updating does not. */
  predicate InRange(e: Entry) {
    0.0 <= e.confidence <= 1.0
  }

  datatype EntryError = ConfidenceOutOfRange

  predicate Loads(saved: Saved) {
    saved.entry.Some? && InRange(saved.entry.value)
  }

  // ---- indexes -----------------------------------------------------------------------------

  /** `index.get(key, set())` */
  function Lookup(index: Index, key: Id): set<Id> {
    if key in index then index[key] else {}
  }

  function Enter(index: Index, key: Id, id: Id): Index {
    index[key := Lookup(index, key) + {id}]
  }

  function Discard(index: Index, key: Id, id: Id): Index {
    if key in index then index[key := index[key] - {id}] else index
  }

  function EnterAll(index: Index, keys: seq<Id>, id: Id): Index {
    if keys == [] then index else Enter(EnterAll(index, keys[..|keys| - 1], id), keys[|keys| - 1], id)
  }

  function DiscardAll(index: Index, keys: seq<Id>, id: Id): Index {
    if keys == [] then index else Discard(DiscardAll(index, keys[..|keys| - 1], id), keys[|keys| - 1], id)
  }

  lemma {:induction false} EnterAllLookup(index: Index, keys: seq<Id>, id: Id, key: Id)
    ensures Lookup(EnterAll(index, keys, id), key) == Lookup(index, key) + if key in keys then {id} else {}
  {
    if keys != [] { EnterAllLookup(index, keys[..|keys| - 1], id, key); }
  }

  lemma {:induction false} DiscardAllLookup(index: Index, keys: seq<Id>, id: Id, key: Id)
    ensures Lookup(DiscardAll(index, keys, id), key) == Lookup(index, key) - if key in keys then {id} else {}
  {
    if keys != [] { DiscardAllLookup(index, keys[..|keys| - 1], id, key); }
  }

  // ---- operations ------------------------------------------------------------------------------

  function Indexed(b: Base, e: Entry): Base {
    b.(domains := Enter(b.domains, e.domain, e.id), tags := EnterAll(b.tags, e.tags, e.id))
  }

  function Added(b: Base, e: Entry): Base {
    Indexed(b.(entries := b.entries.Put(e.id, e)), e)
  }

  datatype Change = Change(title: Option<string>, content: Option<string>, summary: Option<string>,
                           tags: Option<seq<Id>>, confidence: Option<real>)

  function Or<T>(o: Option<T>, otherwise: T): T {
    if o.Some? then o.value else otherwise
  }

  function Changed(e: Entry, c: Change, now: int): Entry {
    e.(title := Or(c.title, e.title), content := Or(c.content, e.content), summary := Or(c.summary, e.summary),
       tags := Or(c.tags, e.tags), confidence := Or(c.confidence, e.confidence),
       version := e.version + 1, updatedAt := Some(now))
  }

  function Updated(b: Base, id: Id, c: Change, now: int): Base {
    if id !in b.entries.items then b
    else
      var e := b.entries.items[id];
      var tags := if c.tags.None? then b.tags else EnterAll(DiscardAll(b.tags, e.tags, id), c.tags.value, id);
      Base(b.entries.Put(id, Changed(e, c, now)), b.domains, tags)
  }

  function Deleted(b: Base, id: Id): Base {
    if id !in b.entries.items then b
    else
      var e := b.entries.items[id];
      Base(b.entries.Delete(id), Discard(b.domains, e.domain, id), DiscardAll(b.tags, e.tags, id))
  }

  function Mention(entries: Dict<Id, Entry>, id: Id, other: Id): Dict<Id, Entry>
    requires id in entries.items
  {
    var e := entries.items[id];
    if other in e.relationships then entries else entries.Put(id, e.(relationships := e.relationships + [other]))
  }

  function Related(b: Base, source: Id, target: Id): Base {
    if source !in b.entries.items || target !in b.entries.items then b
    else b.(entries := Mention(Mention(b.entries, source, target), target, source))
  }

  const EMPTY_BASE := Base(Dict([], map[]), map[], map[])

  /** `_load`: enters the saved entries until one does not load. */
  function Loaded(b: Base, file: seq<Saved>): Base
    decreases |file|
  {
    if file == [] || !Loads(file[0]) then b
    else
      var e := file[0].entry.value;
      Loaded(Indexed(b.(entries := b.entries.Put(file[0].key, e)), e), file[1..])
  }

  /** What `_save` writes: the entries in order under their keys. */
  function FileOf(entries: Dict<Id, Entry>): (file: seq<Saved>)
    ensures |file| == |entries.keys|
    ensures entries.Valid() ==> forall i :: 0 <= i < |file| ==>
      entries.keys[i] in entries.items && file[i] == Saved(entries.keys[i], Some(entries.items[entries.keys[i]]))
  {
    seq(|entries.keys|, i requires 0 <= i < |entries.keys| =>
      Saved(entries.keys[i], if entries.keys[i] in entries.items then Some(entries.items[entries.keys[i]]) else None))
  }

  // ---- what the indexes promise ----------------------------------------------------------------

  ghost predicate HasTag(b: Base, id: Id, tag: Id) {
    id in b.entries.items && tag in b.entries.items[id].tags
  }

  ghost predicate InDomain(b: Base, id: Id, domain: Id) {
    id in b.entries.items && b.entries.items[id].domain == domain
  }

  ghost predicate TagsExact(b: Base) {
    forall id, tag :: id in Lookup(b.tags, tag) <==> HasTag(b, id, tag)
  }

  ghost predicate DomainsExact(b: Base) {
    forall id, domain :: id in Lookup(b.domains, domain) <==> InDomain(b, id, domain)
  }

  ghost predicate KeysAreIds(b: Base) {
    b.entries.Valid() && forall id :: id in b.entries.items ==> b.entries.items[id].id == id
  }

  /** An id is indexed under a tag (domain) exactly when it is live and has that tag (domain). */
  ghost predicate Consistent(b: Base) {
    KeysAreIds(b) && TagsExact(b) && DomainsExact(b)
  }

  ghost predicate Mentions(b: Base, id: Id, other: Id) {
    id in b.entries.items && other in b.entries.items[id].relationships
  }

  /** Live entries mention each other or neither does. */
  ghost predicate Symmetric(b: Base) {
    forall x, y :: x in b.entries.items && y in b.entries.items ==> (Mentions(b, x, y) <==> Mentions(b, y, x))
  }

  /** A new id: neither live nor mentioned by a live entry. */
  ghost predicate Unused(b: Base, id: Id) {
    id !in b.entries.items && forall x :: !Mentions(b, x, id)
  }

  lemma {:induction false} AddConsistent(b: Base, e: Entry)
    requires Consistent(b) && e.id !in b.entries.items
    ensures Consistent(Added(b, e))
  {
    var after := Added(b, e);
    PutValid(b.entries, e.id, e);
    forall id, tag ensures id in Lookup(after.tags, tag) <==> HasTag(after, id, tag) {
      EnterAllLookup(b.tags, e.tags, e.id, tag);
      assert id in Lookup(b.tags, tag) <==> HasTag(b, id, tag);
    }
    forall id, domain ensures id in Lookup(after.domains, domain) <==> InDomain(after, id, domain) {
      assert id in Lookup(b.domains, domain) <==> InDomain(b, id, domain);
    }
  }

  lemma {:induction false} AddKeeps(b: Base, e: Entry)
    requires Consistent(b) && Symmetric(b) && Unused(b, e.id) && e.relationships == []
    ensures Consistent(Added(b, e)) && Symmetric(Added(b, e))
  {
    var after := Added(b, e);
    AddConsistent(b, e);
    forall x, y | x in after.entries.items && y in after.entries.items
      ensures Mentions(after, x, y) <==> Mentions(after, y, x)
    {
      if x != e.id && y != e.id {
        assert Mentions(b, x, y) <==> Mentions(b, y, x);
        assert Mentions(after, x, y) <==> Mentions(b, x, y);
      } else {
        assert !Mentions(b, x, e.id) && !Mentions(b, y, e.id);
      }
    }
  }

  lemma {:induction false} UpdateKeeps(b: Base, id: Id, c: Change, now: int)
    requires Consistent(b) && Symmetric(b)
    ensures Consistent(Updated(b, id, c, now)) && Symmetric(Updated(b, id, c, now))
  {
    if id in b.entries.items {
      var e := b.entries.items[id];
      var after := Updated(b, id, c, now);
      PutValid(b.entries, id, Changed(e, c, now));
      forall x, tag ensures x in Lookup(after.tags, tag) <==> HasTag(after, x, tag) {
        assert x in Lookup(b.tags, tag) <==> HasTag(b, x, tag);
        if c.tags.Some? {
          DiscardAllLookup(b.tags, e.tags, id, tag);
          EnterAllLookup(DiscardAll(b.tags, e.tags, id), c.tags.value, id, tag);
        }
      }
      forall x, domain ensures x in Lookup(after.domains, domain) <==> InDomain(after, x, domain) {
        assert x in Lookup(b.domains, domain) <==> InDomain(b, x, domain);
      }
      forall x, y | x in after.entries.items && y in after.entries.items
        ensures Mentions(after, x, y) <==> Mentions(after, y, x)
      {
        assert Mentions(b, x, y) <==> Mentions(b, y, x);
      }
    }
  }

  lemma {:induction false} DeleteKeeps(b: Base, id: Id)
    requires Consistent(b) && Symmetric(b)
    ensures Consistent(Deleted(b, id)) && Symmetric(Deleted(b, id))
  {
    if id in b.entries.items {
      var e := b.entries.items[id];
      var after := Deleted(b, id);
      DeleteValid(b.entries, id);
      forall x, tag ensures x in Lookup(after.tags, tag) <==> HasTag(after, x, tag) {
        assert x in Lookup(b.tags, tag) <==> HasTag(b, x, tag);
        DiscardAllLookup(b.tags, e.tags, id, tag);
      }
      forall x, domain ensures x in Lookup(after.domains, domain) <==> InDomain(after, x, domain) {
        assert x in Lookup(b.domains, domain) <==> InDomain(b, x, domain);
      }
      forall x, y | x in after.entries.items && y in after.entries.items
        ensures Mentions(after, x, y) <==> Mentions(after, y, x)
      {
        assert Mentions(b, x, y) <==> Mentions(b, y, x);
      }
    }
  }

  lemma {:induction false} RelateKeeps(b: Base, source: Id, target: Id)
    requires Consistent(b) && Symmetric(b)
    ensures Consistent(Related(b, source, target)) && Symmetric(Related(b, source, target))
    ensures source in b.entries.items && target in b.entries.items ==>
        Mentions(Related(b, source, target), source, target)
  {
    if source in b.entries.items && target in b.entries.items {
      var after := Related(b, source, target);
      MentionKeeps(b.entries, source, target);
      MentionKeeps(Mention(b.entries, source, target), target, source);
      forall x, tag ensures x in Lookup(after.tags, tag) <==> HasTag(after, x, tag) {
        assert x in Lookup(b.tags, tag) <==> HasTag(b, x, tag);
      }
      forall x, domain ensures x in Lookup(after.domains, domain) <==> InDomain(after, x, domain) {
        assert x in Lookup(b.domains, domain) <==> InDomain(b, x, domain);
      }
      forall x, y | x in after.entries.items && y in after.entries.items
        ensures Mentions(after, x, y) <==> Mentions(after, y, x)
      {
        assert Mentions(b, x, y) <==> Mentions(b, y, x);
      }
    }
  }

  /** A mention adds one relationship to one entry and changes nothing else. */
  lemma {:induction false} MentionKeeps(entries: Dict<Id, Entry>, id: Id, other: Id)
    requires entries.Valid() && id in entries.items
    ensures var after := Mention(entries, id, other);
      && after.Valid() && after.items.Keys == entries.items.Keys
      && (forall x :: x in entries.items ==>
            after.items[x] == entries.items[x].(relationships := after.items[x].relationships))
      && (forall x, y :: x in entries.items ==>
            (y in after.items[x].relationships <==> y in entries.items[x].relationships || (x == id && y == other)))
  {
    var e := entries.items[id];
    PutValid(entries, id, e.(relationships := e.relationships + [other]));
  }

  // ---- saving and loading ------------------------------------------------------------------------

  /** Same answers from the indexes; sets emptied by discards may remain in one of them. */
  ghost predicate SameIndex(a: Index, b: Index) {
    forall key :: Lookup(a, key) == Lookup(b, key)
  }

  /** The entries with the first n keys, consistently indexed. */
  ghost predicate LoadedSoFar(b: Base, all: Dict<Id, Entry>, n: nat) {
    && n <= |all.keys| && all.Valid()
    && b.entries.keys == all.keys[..n]
    && (forall id :: id in b.entries.items <==> id in all.keys[..n])
    && (forall id :: id in b.entries.items ==> id in all.items && b.entries.items[id] == all.items[id])
    && Consistent(b)
  }

  lemma {:induction false} LoadNext(b: Base, all: Dict<Id, Entry>, n: nat)
    requires LoadedSoFar(b, all, n) && n < |all.keys| && all.keys[n] in all.items
    requires all.items[all.keys[n]].id == all.keys[n]
    ensures LoadedSoFar(Added(b, all.items[all.keys[n]]), all, n + 1)
  {
    var id := all.keys[n];
    var e := all.items[id];
    TakeNext(all.keys, n);
    assert id !in all.keys[..n];
    AddConsistent(b, e);
    PutValid(b.entries, id, e);
  }

  ghost predicate AllInRange(entries: Dict<Id, Entry>) {
    forall id :: id in entries.items ==> InRange(entries.items[id])
  }

  /** How many entries stand before the first one, from the n-th on, that does not load. */
  function Leading(all: Dict<Id, Entry>, n: nat): (k: nat)
    requires all.Valid() && n <= |all.keys|
    ensures n <= k <= |all.keys|
    ensures forall i :: n <= i < k ==> Loads(FileOf(all)[i])
    ensures k < |all.keys| ==> !Loads(FileOf(all)[k])
    decreases |all.keys| - n
  {
    if n < |all.keys| && Loads(FileOf(all)[n]) then Leading(all, n + 1) else n
  }

  lemma {:induction false} LeadingAll(all: Dict<Id, Entry>)
    requires all.Valid()
    ensures Leading(all, 0) == |all.keys| <==> AllInRange(all)
  {
    if Leading(all, 0) == |all.keys| {
      forall id | id in all.items ensures InRange(all.items[id]) {
        assert id in all.keys;
        var i :| 0 <= i < |all.keys| && all.keys[i] == id;
        assert Loads(FileOf(all)[i]);
      }
    }
  }

  lemma {:induction false} LoadRest(b: Base, all: Dict<Id, Entry>, n: nat)
    requires LoadedSoFar(b, all, n)
    requires forall id :: id in all.items ==> all.items[id].id == id
    ensures LoadedSoFar(Loaded(b, FileOf(all)[n..]), all, Leading(all, n))
    decreases |all.keys| - n
  {
    var file := FileOf(all);
    if n < |all.keys| && Loads(file[n]) {
      assert file[n..][0] == file[n] && file[n..][1..] == file[n + 1..];
      assert all.keys[n] in all.items;
      LoadNext(b, all, n);
      LoadRest(Added(b, all.items[all.keys[n]]), all, n + 1);
    }
  }

  /** Loading what was saved gives the entries before the first whose confidence is out of range. */
  lemma {:induction false} LoadLeading(b: Base)
    requires Consistent(b)
    ensures LoadedSoFar(Loaded(EMPTY_BASE, FileOf(b.entries)), b.entries, Leading(b.entries, 0))
  {
    assert FileOf(b.entries)[0..] == FileOf(b.entries);
    LoadRest(EMPTY_BASE, b.entries, 0);
  }

  /** Loading what was saved restores the entries and their order exactly when every confidence is in
      range, and then the indexes answer as before; the indexes fit what was loaded in any case. */
  lemma {:induction false} LoadAfterSave(b: Base)
    requires Consistent(b)
    ensures var again := Loaded(EMPTY_BASE, FileOf(b.entries));
      && Consistent(again)
      && (again.entries == b.entries <==> AllInRange(b.entries))
      && (AllInRange(b.entries) ==> SameIndex(again.tags, b.tags) && SameIndex(again.domains, b.domains))
  {
    var again := Loaded(EMPTY_BASE, FileOf(b.entries));
    LoadLeading(b);
    LeadingAll(b.entries);
    if AllInRange(b.entries) {
      TakeAll(b.entries.keys);
      assert again.entries.items == b.entries.items;
      SameAnswers(again, b);
    }
  }

  lemma {:induction false} SameAnswers(a: Base, b: Base)
    requires Consistent(a) && Consistent(b) && a.entries == b.entries
    ensures SameIndex(a.tags, b.tags) && SameIndex(a.domains, b.domains)
  {
    forall key ensures Lookup(a.tags, key) == Lookup(b.tags, key) {
      forall id ensures id in Lookup(a.tags, key) <==> id in Lookup(b.tags, key) {
        assert HasTag(a, id, key) <==> HasTag(b, id, key);
      }
    }
    forall key ensures Lookup(a.domains, key) == Lookup(b.domains, key) {
      forall id ensures id in Lookup(a.domains, key) <==> id in Lookup(b.domains, key) {
        assert InDomain(a, id, key) <==> InDomain(b, id, key);
      }
    }
  }

  /** Nothing behind an entry that does not load matters. */
  lemma {:induction false} LoadedPrefix(b: Base, file: seq<Saved>, rest: seq<Saved>)
    requires rest == [] || !Loads(rest[0])
    ensures Loaded(b, file + rest) == Loaded(b, file)
    decreases |file|
  {
    if file == [] {
      assert file + rest == rest;
    } else if Loads(file[0]) {
      var e := file[0].entry.value;
      assert (file + rest)[1..] == file[1..] + rest;
      LoadedPrefix(Indexed(b.(entries := b.entries.Put(file[0].key, e)), e), file[1..], rest);
    }
  }

  // ---- every reachable state ---------------------------------------------------------------------

  datatype Op = AddOp(entry: Entry) | UpdateOp(id: Id, change: Change, now: int) | DeleteOp(id: Id)
              | RelateOp(source: Id, target: Id) | ClearOp | ReopenOp

  /** The base in memory and the file on disk. */
  datatype Store = Store(base: Base, file: Option<seq<Saved>>)

  /** A new instance over the file. */
  function Opened(persists: bool, file: Option<seq<Saved>>): Store {
    Store(if persists && file.Some? then Loaded(EMPTY_BASE, file.value) else EMPTY_BASE, file)
  }

  function Written(persists: bool, s: Store, b: Base): Store {
    Store(b, if persists then Some(FileOf(b.entries)) else s.file)
  }

  function Step(persists: bool, s: Store, op: Op): Store {
    match op
    case AddOp(e) => if InRange(e) then Written(persists, s, Added(s.base, e)) else s
    case UpdateOp(id, c, now) =>
      if id in s.base.entries.items then Written(persists, s, Updated(s.base, id, c, now)) else s
    case DeleteOp(id) =>
      if id in s.base.entries.items then Written(persists, s, Deleted(s.base, id)) else s
    case RelateOp(source, target) =>
      if source in s.base.entries.items && target in s.base.entries.items then
        Written(persists, s, Related(s.base, source, target))
      else s
    case ClearOp => Store(EMPTY_BASE, if persists then None else s.file)
    case ReopenOp => Opened(persists, s.file)
  }

  /** The state after a run that started without a file. */
  function Run(persists: bool, ops: seq<Op>): Store {
    if ops == [] then Opened(persists, None) else Step(persists, Run(persists, ops[..|ops| - 1]), ops[|ops| - 1])
  }

  /** The file begins with the entries in memory. It holds more only behind an entry that does not
      load, which a reopening left out. */
  ghost predicate Holds(file: seq<Saved>, entries: Dict<Id, Entry>) {
    && FileOf(entries) <= file
    && (|FileOf(entries)| < |file| ==> AllInRange(entries) && !Loads(file[|FileOf(entries)|]))
  }

  /** The indexes are exact, relationships are symmetric, and the file holds what memory does. */
  ghost predicate Sound(persists: bool, s: Store) {
    && Consistent(s.base) && Symmetric(s.base)
    && (persists ==> if s.file.Some? then Holds(s.file.value, s.base.entries) else s.base == EMPTY_BASE)
  }

  /** A reopening loads what the file would have given had it been written from memory. */
  lemma {:induction false} ReopenLoads(s: Store)
    requires Sound(true, s) && s.file.Some?
    ensures Loaded(EMPTY_BASE, s.file.value) == Loaded(EMPTY_BASE, FileOf(s.base.entries))
  {
    var file, n := s.file.value, |FileOf(s.base.entries)|;
    assert file == FileOf(s.base.entries) + file[n..];
    LoadedPrefix(EMPTY_BASE, FileOf(s.base.entries), file[n..]);
  }

  lemma {:induction false} LeadingInRange(b: Base, again: Base)
    requires Consistent(b) && LoadedSoFar(again, b.entries, Leading(b.entries, 0))
    ensures AllInRange(again.entries)
  {
    var n := Leading(b.entries, 0);
    forall id | id in again.entries.items ensures InRange(again.entries.items[id]) {
      assert id in b.entries.keys[..n];
      var i :| 0 <= i < n && b.entries.keys[i] == id;
      assert Loads(FileOf(b.entries)[i]);
    }
  }

  lemma {:induction false} PrefixSaved(again: Base, all: Dict<Id, Entry>, n: nat)
    requires LoadedSoFar(again, all, n)
    ensures FileOf(again.entries) == FileOf(all)[..n]
  {
    forall i | 0 <= i < n ensures FileOf(again.entries)[i] == FileOf(all)[i] {
      assert again.entries.keys[i] == all.keys[i];
    }
  }

  lemma {:induction false} LeadingHolds(b: Base, again: Base, file: seq<Saved>)
    requires Consistent(b) && Holds(file, b.entries)
    requires LoadedSoFar(again, b.entries, Leading(b.entries, 0))
    ensures Holds(file, again.entries)
  {
    PrefixSaved(again, b.entries, Leading(b.entries, 0));
    LeadingInRange(b, again);
  }

  lemma {:induction false} LoadedSymmetric(b: Base, again: Base, n: nat)
    requires Symmetric(b) && LoadedSoFar(again, b.entries, n)
    ensures Symmetric(again)
  {
    forall x, y | x in again.entries.items && y in again.entries.items
      ensures Mentions(again, x, y) <==> Mentions(again, y, x)
    {
      assert Mentions(b, x, y) <==> Mentions(b, y, x);
    }
  }

  lemma {:induction false} ReopenKeepsSound(persists: bool, s: Store)
    requires Sound(persists, s)
    ensures Sound(persists, Opened(persists, s.file))
  {
    if persists && s.file.Some? {
      var again := Loaded(EMPTY_BASE, s.file.value);
      ReopenLoads(s);
      LoadLeading(s.base);
      LeadingHolds(s.base, again, s.file.value);
      LoadedSymmetric(s.base, again, Leading(s.base.entries, 0));
    }
  }

  /** The ids that accepted entries come with are new, and they have no relationships yet. */
  ghost predicate Fresh(b: Base, op: Op) {
    op.AddOp? && InRange(op.entry) ==> Unused(b, op.entry.id) && op.entry.relationships == []
  }

  ghost predicate NewIds(persists: bool, ops: seq<Op>) {
    forall i :: 0 <= i < |ops| ==> Fresh(Run(persists, ops[..i]).base, ops[i])
  }

  lemma {:induction false} StepKeepsSound(persists: bool, s: Store, op: Op)
    requires Sound(persists, s) && Fresh(s.base, op)
    ensures Sound(persists, Step(persists, s, op))
  {
    match op {
      case AddOp(e) => if InRange(e) { AddKeeps(s.base, e); }
      case UpdateOp(id, c, now) => UpdateKeeps(s.base, id, c, now);
      case DeleteOp(id) => DeleteKeeps(s.base, id);
      case RelateOp(source, target) => RelateKeeps(s.base, source, target);
      case ClearOp =>
      case ReopenOp => ReopenKeepsSound(persists, s);
    }
  }

  lemma {:induction false} NewIdsInit(persists: bool, ops: seq<Op>)
    requires ops != [] && NewIds(persists, ops)
    ensures NewIds(persists, ops[..|ops| - 1])
    ensures Fresh(Run(persists, ops[..|ops| - 1]).base, ops[|ops| - 1])
  {
    var init := ops[..|ops| - 1];
    forall i | 0 <= i < |init| ensures Fresh(Run(persists, init[..i]).base, init[i]) {
      assert init[..i] == ops[..i];
      assert Fresh(Run(persists, ops[..i]).base, ops[i]);
    }
  }

  /** In every reachable state, also after reopening, the indexes are exact, relationships are
      symmetric and the file begins with what memory holds, with more only behind an entry that does
      not load. */
  lemma {:induction false} AlwaysConsistent(persists: bool, ops: seq<Op>)
    requires NewIds(persists, ops)
    ensures Sound(persists, Run(persists, ops))
  {
    if ops != [] {
      NewIdsInit(persists, ops);
      AlwaysConsistent(persists, ops[..|ops| - 1]);
      StepKeepsSound(persists, Run(persists, ops[..|ops| - 1]), ops[|ops| - 1]);
    }
  }

  lemma {:induction false} ReopenExactly(s: Store)
    requires Sound(true, s)
    ensures var again := Opened(true, s.file).base;
      && (again.entries == s.base.entries <==> AllInRange(s.base.entries))
      && (AllInRange(s.base.entries) ==>
            SameIndex(again.tags, s.base.tags) && SameIndex(again.domains, s.base.domains))
  {
    if s.file.Some? {
      ReopenLoads(s);
      LoadAfterSave(s.base);
    }
  }

  /** After any run, reopening a persisting base keeps all entries exactly when every live confidence
      is in range, and then no answer of an index changes. */
  lemma {:induction false} ReopenChangesNothing(ops: seq<Op>)
    requires NewIds(true, ops)
    ensures var s, again := Run(true, ops).base, Run(true, ops + [ReopenOp]).base;
      && (again.entries == s.entries <==> AllInRange(s.entries))
      && (AllInRange(s.entries) ==> SameIndex(again.tags, s.tags) && SameIndex(again.domains, s.domains))
  {
    AlwaysConsistent(true, ops);
    assert (ops + [ReopenOp])[..|ops|] == ops;
    ReopenExactly(Run(true, ops));
  }

  /** An update of a live entry to a confidence out of range; nothing stops it. */
  predicate Spoils(b: Base, op: Op) {
    && op.UpdateOp? && op.id in b.entries.items
    && op.change.confidence.Some? && !(0.0 <= op.change.confidence.value <= 1.0)
  }

  /** While all confidences are in range, one operation puts one out of range exactly when it spoils;
      until then the file is what memory would be saved as. */
  lemma {:induction false} StepInRange(persists: bool, s: Store, op: Op)
    requires Sound(persists, s) && Fresh(s.base, op) && AllInRange(s.base.entries)
    ensures AllInRange(Step(persists, s, op).base.entries) <==> !Spoils(s.base, op)
  {
    match op {
      case AddOp(e) =>
      case UpdateOp(id, c, now) =>
        if id in s.base.entries.items {
          assert InRange(Changed(s.base.entries.items[id], c, now)) <==> !Spoils(s.base, op);
          assert id in Step(persists, s, op).base.entries.items;
        }
      case DeleteOp(id) =>
      case RelateOp(source, target) =>
        if source in s.base.entries.items && target in s.base.entries.items {
          MentionKeeps(s.base.entries, source, target);
          MentionKeeps(Mention(s.base.entries, source, target), target, source);
        }
      case ClearOp =>
      case ReopenOp => if persists { ReopenExactly(s); }
    }
  }

  ghost predicate InRangeAt(persists: bool, ops: seq<Op>, n: nat)
    requires n <= |ops|
  {
    AllInRange(Run(persists, ops[..n]).base.entries)
  }

  ghost predicate SpoilsAt(persists: bool, ops: seq<Op>, n: nat)
    requires n < |ops|
  {
    Spoils(Run(persists, ops[..n]).base, ops[n])
  }

  lemma {:induction false} InRangeNext(persists: bool, ops: seq<Op>, n: nat)
    requires NewIds(persists, ops) && n < |ops| && InRangeAt(persists, ops, n)
    ensures InRangeAt(persists, ops, n + 1) <==> !SpoilsAt(persists, ops, n)
  {
    forall i | 0 <= i < n ensures Fresh(Run(persists, ops[..n][..i]).base, ops[..n][i]) {
      assert ops[..n][..i] == ops[..i];
      assert Fresh(Run(persists, ops[..i]).base, ops[i]);
    }
    AlwaysConsistent(persists, ops[..n]);
    assert ops[..n + 1][..n] == ops[..n];
    assert Fresh(Run(persists, ops[..n]).base, ops[n]);
    StepInRange(persists, Run(persists, ops[..n]), ops[n]);
  }

  lemma {:induction false} InRangeUntilSpoilt(persists: bool, ops: seq<Op>, n: nat)
    requires NewIds(persists, ops) && n <= |ops|
    requires forall i :: 0 <= i < n ==> !SpoilsAt(persists, ops, i)
    ensures InRangeAt(persists, ops, n)
  {
    if n > 0 {
      InRangeUntilSpoilt(persists, ops, n - 1);
      InRangeNext(persists, ops, n - 1);
    }
  }

  /** Every state of a run can be reopened without loss exactly when no operation of it updates a
      live entry to a confidence out of range. */
  lemma {:induction false} AlwaysReopens(persists: bool, ops: seq<Op>)
    requires NewIds(persists, ops)
    ensures (forall n :: 0 <= n <= |ops| ==> InRangeAt(persists, ops, n)) <==>
      (forall n :: 0 <= n < |ops| ==> !SpoilsAt(persists, ops, n))
  {
    if forall n :: 0 <= n < |ops| ==> !SpoilsAt(persists, ops, n) {
      forall n | 0 <= n <= |ops| ensures InRangeAt(persists, ops, n) {
        InRangeUntilSpoilt(persists, ops, n);
      }
    }
    if forall n :: 0 <= n <= |ops| ==> InRangeAt(persists, ops, n) {
      forall n | 0 <= n < |ops| ensures !SpoilsAt(persists, ops, n) {
        assert InRangeAt(persists, ops, n + 1);
        InRangeNext(persists, ops, n);
      }
    }
  }

  lemma {:induction false} RunSnoc(persists: bool, ops: seq<Op>, op: Op, all: seq<Op>)
    requires all == ops + [op]
    ensures Run(persists, all) == Step(persists, Run(persists, ops), op)
  {
    assert all[..|ops|] == ops;
  }

  /** The only change of the failing run. */
  function Overrated(): Change {
    Change(None, None, None, None, Some(1.5))
  }

  /** An update to 1.5 is accepted and saved; reopening then drops that entry and the later one, and
      the next addition overwrites the file without them. */
  lemma {:induction false} ConfidenceLosesEntries(e: Entry, f: Entry, g: Entry, now: int)
    requires InRange(e) && InRange(f) && InRange(g) && e.id != f.id
    ensures var reopened := Run(true, [AddOp(e), AddOp(f), UpdateOp(e.id, Overrated(), now), ReopenOp]);
      && reopened.base == EMPTY_BASE
      && Step(true, reopened, AddOp(g)).file == Some([Saved(g.id, Some(g))])
  {
    var s1 := Step(true, Opened(true, None), AddOp(e));
    var s2 := Step(true, s1, AddOp(f));
    var update := UpdateOp(e.id, Overrated(), now);
    var s3 := Step(true, s2, update);
    var reopened := Step(true, s3, ReopenOp);
    RunSnoc(true, [], AddOp(e), [AddOp(e)]);
    RunSnoc(true, [AddOp(e)], AddOp(f), [AddOp(e), AddOp(f)]);
    RunSnoc(true, [AddOp(e), AddOp(f)], update, [AddOp(e), AddOp(f), update]);
    RunSnoc(true, [AddOp(e), AddOp(f), update], ReopenOp, [AddOp(e), AddOp(f), update, ReopenOp]);
    assert s2.base.entries.keys == [e.id, f.id];
    assert FileOf(s3.base.entries)[0] == Saved(e.id, Some(Changed(e, Overrated(), now)));
    assert reopened.base == EMPTY_BASE;
    assert FileOf(Added(EMPTY_BASE, g).entries) == [Saved(g.id, Some(g))];
  }

  // ---- what one operation does -------------------------------------------------------------------

  /** The saved file lists the entries in order under their keys. */
  ghost predicate Mirrors(file: Option<seq<Saved>>, entries: Dict<Id, Entry>) {
    && file.Some? && |file.value| == |entries.keys|
    && forall i :: 0 <= i < |entries.keys| ==>
         && file.value[i].key == entries.keys[i] && entries.keys[i] in entries.items
         && file.value[i].entry == Some(entries.items[entries.keys[i]])
  }

  ghost predicate SavedAfter(persists: bool, before: Store, after: Store) {
    if persists then Mirrors(after.file, after.base.entries) else after.file == before.file
  }

  /** An addition puts the entry behind the others and its id under its domain and tags. */
  lemma {:induction false} AddDoes(persists: bool, s: Store, e: Entry, key: Id)
    requires Consistent(s.base) && InRange(e) && e.id !in s.base.entries.items
    ensures var after := Step(persists, s, AddOp(e));
      && after.base.entries.keys == s.base.entries.keys + [e.id]
      && after.base.entries.items == s.base.entries.items[e.id := e]
      && Lookup(after.base.tags, key) == Lookup(s.base.tags, key) + (if key in e.tags then {e.id} else {})
      && Lookup(after.base.domains, key) == Lookup(s.base.domains, key) + (if key == e.domain then {e.id} else {})
      && SavedAfter(persists, s, after)
  {
    EnterAllLookup(s.base.tags, e.tags, e.id, key);
    AddConsistent(s.base, e);
  }

  /** An entry of a confidence out of range, and an operation on an id that is not live, change
      nothing. */
  lemma {:induction false} RefusedOps(persists: bool, s: Store, op: Op)
    requires match op
             case AddOp(e) => e.confidence < 0.0 || e.confidence > 1.0
             case UpdateOp(id, _, _) => id !in s.base.entries.items
             case DeleteOp(id) => id !in s.base.entries.items
             case RelateOp(a, b) => a !in s.base.entries.items || b !in s.base.entries.items
             case _ => false
    ensures Step(persists, s, op) == s
  {
  }

  /** The entry after an update: given fields as given, the others as they were. */
  ghost predicate UpdatedEntry(e: Entry, c: Change, now: int, after: Entry) {
    && (c.title.Some? ==> after.title == c.title.value) && (c.title.None? ==> after.title == e.title)
    && (c.content.Some? ==> after.content == c.content.value) && (c.content.None? ==> after.content == e.content)
    && (c.summary.Some? ==> after.summary == c.summary.value) && (c.summary.None? ==> after.summary == e.summary)
    && (c.tags.Some? ==> after.tags == c.tags.value) && (c.tags.None? ==> after.tags == e.tags)
    && (c.confidence.Some? ==> after.confidence == c.confidence.value)
    && (c.confidence.None? ==> after.confidence == e.confidence)
    && after.version == e.version + 1 && after.updatedAt == Some(now)
    && after.id == e.id && after.domain == e.domain && after.createdAt == e.createdAt
    && after.relationships == e.relationships && after.sources == e.sources
  }

  /** An update changes this entry alone, where it stands, and moves its id from its old tags to its
      new ones. */
  lemma {:induction false} UpdateDoes(persists: bool, s: Store, id: Id, c: Change, now: int, key: Id)
    requires Consistent(s.base) && id in s.base.entries.items
    ensures var after := Step(persists, s, UpdateOp(id, c, now));
      && after.base.entries.keys == s.base.entries.keys && id in after.base.entries.items
      && UpdatedEntry(s.base.entries.items[id], c, now, after.base.entries.items[id])
      && after.base.entries.items - {id} == s.base.entries.items - {id}
      && Lookup(after.base.tags, key)
           == Lookup(s.base.tags, key) - {id} + (if key in after.base.entries.items[id].tags then {id} else {})
      && Lookup(after.base.domains, key) == Lookup(s.base.domains, key)
      && SavedAfter(persists, s, after)
  {
    var e := s.base.entries.items[id];
    PutValid(s.base.entries, id, Changed(e, c, now));
    assert id in Lookup(s.base.tags, key) <==> HasTag(s.base, id, key);
    if c.tags.Some? {
      DiscardAllLookup(s.base.tags, e.tags, id, key);
      EnterAllLookup(DiscardAll(s.base.tags, e.tags, id), c.tags.value, id, key);
    }
  }

  ghost predicate EntriesLeft(before: Dict<Id, Entry>, after: Dict<Id, Entry>, id: Id) {
    && id !in after.items && id !in after.keys
    && after.items == before.items - {id}
    && exists i :: 0 <= i < |before.keys| && before.keys[i] == id
                   && after.keys == before.keys[..i] + before.keys[i + 1..]
  }

  ghost predicate IndexLeft(before: Index, after: Index, id: Id) {
    forall key :: Lookup(after, key) == Lookup(before, key) - {id}
  }

  /** What a deletion leaves: the other entries as they were and in their order, the id under no tag
      and no domain, the other ids where they were. */
  ghost predicate LeftWithout(before: Base, after: Base, id: Id) {
    && EntriesLeft(before.entries, after.entries, id)
    && IndexLeft(before.tags, after.tags, id) && IndexLeft(before.domains, after.domains, id)
  }

  lemma {:induction false} EntriesLeave(entries: Dict<Id, Entry>, id: Id)
    requires entries.Valid() && id in entries.items
    ensures EntriesLeft(entries, entries.Delete(id), id)
  {
    var i :| 0 <= i < |entries.keys| && entries.keys[i] == id;
    DeleteAt(entries, i);
    DeleteValid(entries, id);
  }

  lemma {:induction false} TagsLeave(b: Base, id: Id)
    requires TagsExact(b) && id in b.entries.items
    ensures IndexLeft(b.tags, DiscardAll(b.tags, b.entries.items[id].tags, id), id)
  {
    var e := b.entries.items[id];
    forall key ensures Lookup(DiscardAll(b.tags, e.tags, id), key) == Lookup(b.tags, key) - {id} {
      DiscardAllLookup(b.tags, e.tags, id, key);
      assert id in Lookup(b.tags, key) <==> HasTag(b, id, key);
    }
  }

  lemma {:induction false} DomainLeaves(b: Base, id: Id)
    requires DomainsExact(b) && id in b.entries.items
    ensures IndexLeft(b.domains, Discard(b.domains, b.entries.items[id].domain, id), id)
  {
    var domain := b.entries.items[id].domain;
    forall key ensures Lookup(Discard(b.domains, domain, id), key) == Lookup(b.domains, key) - {id} {
      assert id in Lookup(b.domains, key) <==> InDomain(b, id, key);
    }
  }

  lemma {:induction false} DeletionLeaves(b: Base, id: Id)
    requires Consistent(b) && id in b.entries.items
    ensures LeftWithout(b, Deleted(b, id), id)
  {
    EntriesLeave(b.entries, id);
    TagsLeave(b, id);
    DomainLeaves(b, id);
  }

  ghost predicate InFile(file: Option<seq<Saved>>, id: Id) {
    file.Some? && exists i :: 0 <= i < |file.value| && file.value[i].key == id
  }

  /** After any run, deleting a live id takes it out of the entries, of both indexes and of the saved
      file, and leaves everything else as it was. */
  lemma {:induction false} DeleteDoes(persists: bool, ops: seq<Op>, id: Id)
    requires NewIds(persists, ops) && id in Run(persists, ops).base.entries.items
    ensures var before, after := Run(persists, ops), Run(persists, ops + [DeleteOp(id)]);
      && LeftWithout(before.base, after.base, id)
      && SavedAfter(persists, before, after)
      && (persists ==> !InFile(after.file, id))
  {
    var before, after := Run(persists, ops), Run(persists, ops + [DeleteOp(id)]);
    AlwaysConsistent(persists, ops);
    RunSnoc(persists, ops, DeleteOp(id), ops + [DeleteOp(id)]);
    DeletionLeaves(before.base, id);
    DeleteKeeps(before.base, id);
  }

  lemma {:induction false} MentionAdds(entries: Dict<Id, Entry>, id: Id, other: Id, x: Id)
    requires id in entries.items && x in entries.items
    ensures var after := Mention(entries, id, other);
      && after.keys == entries.keys && x in after.items
      && (x != id || other in entries.items[x].relationships ==> after.items[x] == entries.items[x])
      && (x == id && other !in entries.items[x].relationships ==>
            after.items[x] == entries.items[x].(relationships := entries.items[x].relationships + [other]))
  {
  }

  /** The entry after it was related as one or both of the two: with each missing mention added. */
  ghost predicate RelatedEntry(e: Entry, x: Id, source: Id, target: Id, after: Entry) {
    && (x == source && target !in e.relationships ==>
          after == e.(relationships := e.relationships + [target]))
    && (x == target && source !in e.relationships ==>
          after == e.(relationships := e.relationships + [source]))
    && ((x == source ==> target in e.relationships) && (x == target ==> source in e.relationships) ==> after == e)
  }

  lemma {:induction false} BothMention(entries: Dict<Id, Entry>, source: Id, target: Id, x: Id)
    requires source in entries.items && target in entries.items && x in entries.items
    ensures var once := Mention(entries, source, target);
      && target in once.items
      && var after := Mention(once, target, source);
         && after.keys == entries.keys && x in after.items
         && RelatedEntry(entries.items[x], x, source, target, after.items[x])
  {
    MentionAdds(entries, source, target, x);
    MentionAdds(entries, source, target, target);
    MentionAdds(Mention(entries, source, target), target, source, x);
  }

  /** Relating two live entries adds to each the id of the other, unless it is there, and changes
      nothing else. */
  lemma {:induction false} RelateDoes(persists: bool, s: Store, source: Id, target: Id, x: Id)
    requires Consistent(s.base) && source in s.base.entries.items && target in s.base.entries.items
    requires x in s.base.entries.items
    ensures var after := Step(persists, s, RelateOp(source, target));
      && after.base.entries.keys == s.base.entries.keys && x in after.base.entries.items
      && RelatedEntry(s.base.entries.items[x], x, source, target, after.base.entries.items[x])
      && after.base.tags == s.base.tags && after.base.domains == s.base.domains
      && SavedAfter(persists, s, after)
  {
    BothMention(s.base.entries, source, target, x);
    RelatedMirrors(persists, s, source, target);
  }

  lemma {:induction false} RelatedMirrors(persists: bool, s: Store, source: Id, target: Id)
    requires Consistent(s.base) && source in s.base.entries.items && target in s.base.entries.items
    ensures SavedAfter(persists, s, Step(persists, s, RelateOp(source, target)))
  {
    MentionKeeps(s.base.entries, source, target);
    MentionKeeps(Mention(s.base.entries, source, target), target, source);
  }

  // ---- searching -----------------------------------------------------------------------------------

  /** A search; `text` stands for the substring test of the query, if there is one. */
  datatype Query = Query(text: Option<Entry -> bool>, domain: Id, tags: seq<Id>, minConfidence: real, limit: int)

  /** Whether an entry answers the first n parts of a query, read off the entry itself: domain,
      tags, confidence and text. */
  predicate Answers(q: Query, n: nat, e: Entry) {
    && (n >= 1 && q.domain.text != "" ==> e.domain == q.domain)
    && (n >= 2 ==> forall tag :: tag in q.tags ==> tag in e.tags)
    && (n >= 3 && q.minConfidence > 0.0 ==> e.confidence >= q.minConfidence)
    && (n >= 4 && q.text.Some? ==> q.text.value(e))
  }

  function Answering(q: Query, n: nat): Entry -> bool {
    (e: Entry) => Answers(q, n, e)
  }

  function WithId(ids: set<Id>): Entry -> bool {
    (e: Entry) => e.id in ids
  }

  function AtLeast(confidence: real): Entry -> bool {
    (e: Entry) => e.confidence >= confidence
  }

  /** The key (confidence, created_at), negated for the reverse order: the best first. */
  function BestFirst(): Entry -> Key {
    (e: Entry) => Key(-e.confidence, -(e.createdAt as real))
  }

  /** What a search should find: the entries that answer the query by direct inspection. */
  function DirectScan(entries: Dict<Id, Entry>, q: Query): seq<Entry>
    requires entries.Valid()
  {
    var ranked := StableSort(Filter(Values(entries), Answering(q, 4)), BestFirst());
    ranked[..Cut(|ranked|, q.limit)]
  }

  /** What the caller asked for, about one entry. */
  ghost predicate Wanted(q: Query, e: Entry) {
    && (q.domain.text == "" || e.domain == q.domain)
    && (forall tag :: tag in q.tags ==> tag in e.tags)
    && (q.minConfidence <= 0.0 || e.confidence >= q.minConfidence)
    && (q.text.None? || q.text.value(e))
  }

  /** The first entry goes before the second: more certain, or as certain and newer, or equal in both. */
  ghost predicate NoWorse(e: Entry, f: Entry) {
    e.confidence > f.confidence || (e.confidence == f.confidence && e.createdAt >= f.createdAt)
  }

  ghost predicate BestInOrder(found: seq<Entry>) {
    forall i, j :: 0 <= i < j < |found| ==> NoWorse(found[i], found[j])
  }

  lemma {:induction false} BestFirstOrders(found: seq<Entry>)
    requires Sorted(found, BestFirst())
    ensures BestInOrder(found)
  {
    forall i, j | 0 <= i < j < |found| ensures NoWorse(found[i], found[j]) {
      assert !Less(BestFirst()(found[j]), BestFirst()(found[i]));
    }
  }

  /** How often an entry is among those a direct scan keeps before the cut. */
  lemma {:induction false} ScanCounts(entries: Dict<Id, Entry>, q: Query, e: Entry)
    requires entries.Valid()
    ensures var ranked := StableSort(Filter(Values(entries), Answering(q, 4)), BestFirst());
      && |ranked| <= |Values(entries)| && Sorted(ranked, BestFirst())
      && Count(ranked, e) == (if Wanted(q, e) then Count(Values(entries), e) else 0)
  {
    var answers := Filter(Values(entries), Answering(q, 4));
    SortIsStable(answers, BestFirst(), Key(0.0, 0.0));
    SortCounts(answers, BestFirst(), e);
    assert Answering(q, 4)(e) <==> Wanted(q, e);
    FilterCount(Values(entries), Answering(q, 4), e);
    FilterShorter(Values(entries), Answering(q, 4));
  }

  /** A search finds live entries that are wanted, each as often as it is live, the best first; a
      wanted one that is not found is no better than any that is, and the limit is used up. */
  lemma {:induction false} SearchFinds(entries: Dict<Id, Entry>, q: Query, e: Entry)
    requires entries.Valid()
    ensures var found, all := DirectScan(entries, q), Values(entries);
      && BestInOrder(found)
      && (e in found ==> e in all && Wanted(q, e) && Count(found, e) <= Count(all, e))
      && (e in all && Wanted(q, e) && e !in found ==>
            (q.limit >= 0 ==> |found| == q.limit) && forall i :: 0 <= i < |found| ==> NoWorse(found[i], e))
      && (q.limit >= 0 ==> |found| <= q.limit)
      && (q.limit >= |all| && Wanted(q, e) ==> Count(found, e) == Count(all, e))
  {
    var ranked := StableSort(Filter(Values(entries), Answering(q, 4)), BestFirst());
    var k := Cut(|ranked|, q.limit);
    ScanCounts(entries, q, e);
    BestFirstOrders(ranked);
    CutRanked(ranked, BestFirst(), k, e);
    CountPositive(Values(entries), e);
    CountPositive(ranked, e);
    CountPositive(ranked[..k], e);
    if e in ranked && e !in ranked[..k] {
      forall i | 0 <= i < k ensures NoWorse(ranked[i], e) {
        assert !Less(BestFirst()(e), BestFirst()(ranked[i]));
      }
    }
  }

  /** One more part of the query filters what the earlier parts left. */
  lemma {:induction false} FilterNext(es: seq<Entry>, q: Query, n: nat, p: Entry -> bool)
    requires forall e :: e in es ==> (Answers(q, n + 1, e) <==> Answers(q, n, e) && p(e))
    ensures Filter(Filter(es, Answering(q, n)), p) == Filter(es, Answering(q, n + 1))
  {
    if es != [] {
      FilterNext(es[1..], q, n, p);
      assert es[0] in es;
      FilterCons(es, Answering(q, n));
      FilterCons(es, Answering(q, n + 1));
      if Answers(q, n, es[0]) {
        var found := [es[0]] + Filter(es[1..], Answering(q, n));
        FilterCons(found, p);
        assert found[1..] == Filter(es[1..], Answering(q, n));
      }
    }
  }

  lemma {:induction false} FilterSame(es: seq<Entry>, q: Query, n: nat)
    requires forall e :: e in es ==> (Answers(q, n + 1, e) <==> Answers(q, n, e))
    ensures Filter(es, Answering(q, n)) == Filter(es, Answering(q, n + 1))
  {
    if es != [] {
      FilterSame(es[1..], q, n);
      assert es[0] in es;
    }
  }

  /** The ids under every one of the tags. */
  ghost function TagIds(index: Index, tags: seq<Id>): set<Id>
    requires tags != []
  {
    set id | id in Lookup(index, tags[0]) && UnderAll(index, tags, id)
  }

  ghost predicate UnderAll(index: Index, tags: seq<Id>, id: Id) {
    forall tag :: tag in tags ==> id in Lookup(index, tag)
  }

  class KnowledgeBase {
    const persists: bool
    var entries: Dict<Id, Entry>
    var domainIndex: Index
    var tagIndex: Index
    var file: Option<seq<Saved>>

    ghost function State(): Base
      reads this
    {
      Base(entries, domainIndex, tagIndex)
    }

    ghost function Stored(): Store
      reads this
    {
      Store(State(), file)
    }

    ghost predicate Valid()
      reads this
    {
      Consistent(State()) && Symmetric(State())
    }

    /** Opens the base, loading the file if there is one. */
    constructor (persists: bool, file: Option<seq<Saved>>)
      ensures this.persists == persists && Stored() == Opened(persists, file)
      ensures !persists || file.None? ==> Valid()
      ensures forall s: Store :: Sound(true, s) && s.file == file ==> Valid()
    {
      this.persists, this.file := persists, file;
      entries, domainIndex, tagIndex := EMPTY_BASE.entries, map[], map[];
      new;
      if persists && file.Some? {
        Load(file.value);
      }
      forall s: Store | Sound(true, s) && s.file == file ensures Valid() {
        ReopenKeepsSound(true, s);
      }
    }

    method Load(saved: seq<Saved>)
      modifies this`entries, this`domainIndex, this`tagIndex
      ensures State() == Loaded(old(State()), saved)
    {
      var i := 0;
      while i < |saved|
        invariant i <= |saved|
        invariant Loaded(State(), saved[i..]) == Loaded(old(State()), saved)
      {
        assert saved[i..][0] == saved[i] && saved[i..][1..] == saved[i + 1..];
        if !Loads(saved[i]) {
          return;
        }
        entries := entries.Put(saved[i].key, saved[i].entry.value);
        IndexEntry(saved[i].entry.value);
        i := i + 1;
      }
    }

    method IndexEntry(e: Entry)
      modifies this`domainIndex, this`tagIndex
      ensures State() == Indexed(old(State()), e)
    {
      domainIndex := Enter(domainIndex, e.domain, e.id);
      EnterTags(e.tags, e.id);
    }

    method EnterTags(tags: seq<Id>, id: Id)
      modifies this`tagIndex
      ensures tagIndex == EnterAll(old(tagIndex), tags, id)
    {
      for i := 0 to |tags|
        invariant tagIndex == EnterAll(old(tagIndex), tags[..i], id)
      {
        assert tags[..i + 1][..i] == tags[..i];
        tagIndex := Enter(tagIndex, tags[i], id);
      }
      TakeAll(tags);
    }

    method DiscardTags(tags: seq<Id>, id: Id)
      modifies this`tagIndex
      ensures tagIndex == DiscardAll(old(tagIndex), tags, id)
    {
      for i := 0 to |tags|
        invariant tagIndex == DiscardAll(old(tagIndex), tags[..i], id)
      {
        assert tags[..i + 1][..i] == tags[..i];
        tagIndex := Discard(tagIndex, tags[i], id);
      }
      TakeAll(tags);
    }

    method Save()
      modifies this`file
      ensures file == if persists then Some(FileOf(entries)) else old(file)
    {
      if persists {
        file := Some(FileOf(entries));
      }
    }

    /** `add_knowledge`; the id is new. Building the entry checks its confidence. */
    method AddKnowledge(e: Entry) returns (r: Result<Entry, EntryError>)
      requires Valid() && Unused(State(), e.id) && e.relationships == []
      modifies this
      ensures Valid() && Stored() == Step(persists, old(Stored()), AddOp(e))
      ensures r == if InRange(e) then Ok(e) else Err(ConfidenceOutOfRange)
      ensures State() == if InRange(e) then Added(old(State()), e) else old(State())
      ensures persists && r.Ok? ==> file == Some(FileOf(entries))
    {
      if !InRange(e) {
        return Err(ConfidenceOutOfRange);
      }
      AddKeeps(State(), e);
      entries := entries.Put(e.id, e);
      IndexEntry(e);
      Save();
      return Ok(e);
    }

    method Update(id: Id, c: Change, now: int) returns (r: Option<Entry>)
      requires Valid()
      modifies this
      ensures Valid() && Stored() == Step(persists, old(Stored()), UpdateOp(id, c, now))
      ensures State() == Updated(old(State()), id, c, now)
      ensures r == if id in old(entries.items) then Some(Changed(old(entries.items[id]), c, now)) else None
      ensures persists && r.Some? ==> file == Some(FileOf(entries))
    {
      UpdateKeeps(State(), id, c, now);
      if id !in entries.items {
        return None;
      }
      var e := entries.items[id];
      if c.tags.Some? {
        DiscardTags(e.tags, id);
        EnterTags(c.tags.value, id);
      }
      entries := entries.Put(id, Changed(e, c, now));
      Save();
      return Some(Changed(e, c, now));
    }

    method Delete(id: Id) returns (found: bool)
      requires Valid()
      modifies this
      ensures Valid() && Stored() == Step(persists, old(Stored()), DeleteOp(id))
      ensures State() == Deleted(old(State()), id)
      ensures found <==> id in old(entries.items)
      ensures found ==> LeftWithout(old(State()), State(), id)
      ensures !found ==> State() == old(State()) && file == old(file)
      ensures persists && found ==> Mirrors(file, entries) && !InFile(file, id)
    {
      if id in entries.items {
        DeletionLeaves(State(), id);
      }
      DeleteKeeps(State(), id);
      if id !in entries.items {
        return false;
      }
      var e := entries.items[id];
      domainIndex := Discard(domainIndex, e.domain, id);
      DiscardTags(e.tags, id);
      entries := entries.Delete(id);
      Save();
      return true;
    }

    method MentionEachOther(source: Id, target: Id)
      requires source in entries.items && target in entries.items
      modifies this`entries
      ensures State() == Related(old(State()), source, target)
    {
      entries := Mention(entries, source, target);
      entries := Mention(entries, target, source);
    }

    method AddRelationship(source: Id, target: Id) returns (added: bool)
      requires Valid()
      modifies this
      ensures Valid() && Stored() == Step(persists, old(Stored()), RelateOp(source, target))
      ensures State() == Related(old(State()), source, target)
      ensures added <==> source in old(entries.items) && target in old(entries.items)
      ensures persists && added ==> file == Some(FileOf(entries))
    {
      RelateKeeps(State(), source, target);
      if source !in entries.items || target !in entries.items {
        return false;
      }
      MentionEachOther(source, target);
      Save();
      return true;
    }

    method Clear()
      modifies this
      ensures Valid() && Stored() == Step(persists, old(Stored()), ClearOp)
      ensures State() == EMPTY_BASE
      ensures file == if persists then None else old(file)
    {
      entries, domainIndex, tagIndex := EMPTY_BASE.entries, map[], map[];
      if persists {
        file := None;
      }
    }

    method MatchingIds(tags: seq<Id>) returns (ids: set<Id>)
      requires tags != []
      ensures ids == TagIds(tagIndex, tags)
    {
      ids := Lookup(tagIndex, tags[0]);
      for i := 1 to |tags|
        invariant ids == TagIds(tagIndex, tags[..i])
      {
        TakeNext(tags, i);
        ids := ids * Lookup(tagIndex, tags[i]);
      }
      TakeAll(tags);
    }

    /** The entries the indexes find for a query's domain and tags. */
    method ByIndexes(q: Query) returns (results: seq<Entry>)
      requires Valid()
      ensures results == Filter(Values(entries), Answering(q, 2))
    {
      results := Values(entries);
      FilterAll(results, Answering(q, 0));
      DomainNarrows(State(), q);
      TagsNarrow(State(), q);
      if q.domain.text != "" {
        results := Filter(results, WithId(Lookup(domainIndex, q.domain)));
      }
      if q.tags != [] {
        var ids := MatchingIds(q.tags);
        results := Filter(results, WithId(ids));
      }
    }

    /** `search`: what the indexes find is what a direct scan of the entries finds. */
    method Search(q: Query) returns (results: seq<Entry>)
      requires Valid()
      ensures results == DirectScan(entries, q)
    {
      results := ByIndexes(q);
      RestNarrows(Values(entries), q);
      if q.minConfidence > 0.0 {
        results := Filter(results, AtLeast(q.minConfidence));
      }
      if q.text.Some? {
        results := Filter(results, q.text.value);
      }
      results := StableSort(results, BestFirst());
      results := results[..Cut(|results|, q.limit)];
    }
  }

  lemma {:induction false} IdsInDomain(b: Base, domain: Id)
    requires Consistent(b)
    ensures forall e :: e in Values(b.entries) ==> (e.id in Lookup(b.domains, domain) <==> e.domain == domain)
  {
    LiveEntries(b);
    forall e | e in Values(b.entries) ensures e.id in Lookup(b.domains, domain) <==> e.domain == domain {
      assert e.id in Lookup(b.domains, domain) <==> InDomain(b, e.id, domain);
    }
  }

  lemma {:induction false} NarrowByDomain(es: seq<Entry>, q: Query, ids: set<Id>)
    requires q.domain.text != "" && forall e :: e in es ==> (e.id in ids <==> e.domain == q.domain)
    ensures Filter(Filter(es, Answering(q, 0)), WithId(ids)) == Filter(es, Answering(q, 1))
  {
    FilterNext(es, q, 0, WithId(ids));
  }

  lemma {:induction false} DomainNarrows(b: Base, q: Query)
    requires Consistent(b)
    ensures Filter(Values(b.entries), Answering(q, 1))
      == if q.domain.text != "" then
           Filter(Filter(Values(b.entries), Answering(q, 0)), WithId(Lookup(b.domains, q.domain)))
         else Filter(Values(b.entries), Answering(q, 0))
  {
    if q.domain.text != "" {
      IdsInDomain(b, q.domain);
      NarrowByDomain(Values(b.entries), q, Lookup(b.domains, q.domain));
    } else {
      FilterSame(Values(b.entries), q, 0);
    }
  }

  lemma {:induction false} IdsWithTags(b: Base, tags: seq<Id>)
    requires Consistent(b) && tags != []
    ensures forall e :: e in Values(b.entries) ==>
        (e.id in TagIds(b.tags, tags) <==> forall tag :: tag in tags ==> tag in e.tags)
  {
    LiveEntries(b);
    forall e | e in Values(b.entries)
      ensures e.id in TagIds(b.tags, tags) <==> forall tag :: tag in tags ==> tag in e.tags
    {
      forall tag ensures e.id in Lookup(b.tags, tag) <==> tag in e.tags {
        assert e.id in Lookup(b.tags, tag) <==> HasTag(b, e.id, tag);
      }
      assert tags[0] in tags;
    }
  }

  lemma {:induction false} NarrowByTags(es: seq<Entry>, q: Query, ids: set<Id>)
    requires forall e :: e in es ==> (e.id in ids <==> forall tag :: tag in q.tags ==> tag in e.tags)
    ensures Filter(Filter(es, Answering(q, 1)), WithId(ids)) == Filter(es, Answering(q, 2))
  {
    FilterNext(es, q, 1, WithId(ids));
  }

  lemma {:induction false} TagsNarrow(b: Base, q: Query)
    requires Consistent(b)
    ensures Filter(Values(b.entries), Answering(q, 2))
      == if q.tags != [] then Filter(Filter(Values(b.entries), Answering(q, 1)), WithId(TagIds(b.tags, q.tags)))
         else Filter(Values(b.entries), Answering(q, 1))
  {
    var all := Values(b.entries);
    if q.tags != [] {
      IdsWithTags(b, q.tags);
      NarrowByTags(all, q, TagIds(b.tags, q.tags));
    } else {
      FilterSame(all, q, 1);
    }
  }

  lemma {:induction false} RestNarrows(es: seq<Entry>, q: Query)
    ensures Filter(es, Answering(q, 3))
      == if q.minConfidence > 0.0 then Filter(Filter(es, Answering(q, 2)), AtLeast(q.minConfidence))
         else Filter(es, Answering(q, 2))
    ensures Filter(es, Answering(q, 4))
      == if q.text.Some? then Filter(Filter(es, Answering(q, 3)), q.text.value) else Filter(es, Answering(q, 3))
  {
    if q.minConfidence > 0.0 {
      FilterNext(es, q, 2, AtLeast(q.minConfidence));
    } else {
      FilterSame(es, q, 2);
    }
    if q.text.Some? {
      FilterNext(es, q, 3, q.text.value);
    } else {
      FilterSame(es, q, 3);
    }
  }

  lemma {:induction false} LiveEntries(b: Base)
    requires KeysAreIds(b)
    ensures forall e :: e in Values(b.entries) ==> e.id in b.entries.items && b.entries.items[e.id] == e
  {
    var all := Values(b.entries);
    forall e | e in all ensures e.id in b.entries.items && b.entries.items[e.id] == e {
      var i :| 0 <= i < |all| && all[i] == e;
      assert b.entries.keys[i] in b.entries.items;
    }
  }
}
