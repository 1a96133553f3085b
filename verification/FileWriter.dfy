/** `generator/writer.py`: writing generated files with checksums, backups and rollback. */
module FileWriting {
  import opened Collections

  /** The files of the output directory: those written through the writer, the backups it makes of
      them, and the metadata files it keeps per stem. The three kinds never share a path. */
  datatype Path = Managed(name: Id) | Backup(name: Id, stamp: nat) | Metadata(stem: Id)

  /** A digest, taken to be collision-free. */
  datatype Checksum = Md5Of(content: string)

  datatype BackupInfo = BackupInfo(path: Path, checksum: Checksum)

  datatype WriteError = ValidationFailed | WriteFailed

  /** How a validation callback ends. */
  datatype Verdict = Accepts | ReturnsFalse | RaisesInvalid | RaisesOther

  type Files = map<Path, string>

  datatype Settings = Settings(checksums: bool, validation: bool, dryRun: bool, stemOf: Id -> Id)

  datatype Writer = Writer(files: Files, backups: Dict<Id, BackupInfo>, checksums: map<Id, Checksum>,
                           written: seq<Id>, skipped: seq<Id>)

  /** One call of write with what its surroundings decide: the callbacks' verdicts, the clock, and
      which file operations fail. */
  datatype Request = Request(name: Id, content: string, backup: bool, verdicts: seq<Verdict>,
                             metadata: Option<string>, stamp: nat, backupFails: bool, writeFails: bool)

  // ---- the steps of write ------------------------------------------------------------------

  predicate Rejects(v: Verdict) { v == ReturnsFalse || v == RaisesInvalid }

  predicate Invalid(cfg: Settings, r: Request) {
    cfg.validation && exists v :: v in r.verdicts && Rejects(v)
  }

  predicate Unchanged(w: Writer, r: Request) {
    Managed(r.name) in w.files && r.name in w.checksums && w.checksums[r.name] == Md5Of(r.content)
  }

  /** Whether the call makes a backup. Dry runs do, too. */
  predicate BacksUp(cfg: Settings, w: Writer, r: Request) {
    !Invalid(cfg, r) && !Unchanged(w, r) && r.backup && Managed(r.name) in w.files && !r.backupFails
  }

  function BackedUp(w: Writer, name: Id, stamp: nat): Writer
    requires Managed(name) in w.files
  {
    var content := w.files[Managed(name)];
    w.(files := w.files[Backup(name, stamp) := content],
       backups := w.backups.Put(name, BackupInfo(Backup(name, stamp), Md5Of(content))))
  }

  /** Whether the call changes the file. */
  predicate Stores(cfg: Settings, w: Writer, r: Request) {
    !Invalid(cfg, r) && !Unchanged(w, r) && !cfg.dryRun && !r.writeFails
  }

  /** The file, its checksum and its metadata stored; only the metadata in a dry run. */
  function Stored(cfg: Settings, w: Writer, name: Id, content: string, metadata: Option<string>): Writer {
    var put := if cfg.dryRun then w
               else w.(files := w.files[Managed(name) := content],
                       checksums := if cfg.checksums then w.checksums[name := Md5Of(content)] else w.checksums,
                       written := w.written + [name]);
    if metadata.None? then put else put.(files := put.files[Metadata(cfg.stemOf(name)) := metadata.value])
  }

  function Write(cfg: Settings, w: Writer, r: Request): (Writer, Result<Id, WriteError>) {
    if Invalid(cfg, r) then (w, Err(ValidationFailed))
    else if Unchanged(w, r) then (w.(skipped := w.skipped + [r.name]), Ok(r.name))
    else
      var ready := if BacksUp(cfg, w, r) then BackedUp(w, r.name, r.stamp) else w;
      if !cfg.dryRun && r.writeFails then (ready, Err(WriteFailed))
      else (Stored(cfg, ready, r.name, r.content, r.metadata), Ok(r.name))
  }

  predicate CanRollBack(w: Writer, name: Id) {
    name in w.backups.items && w.backups.items[name].path in w.files
  }

  function RolledBack(w: Writer, name: Id): Writer {
    if !CanRollBack(w, name) then w
    else
      var info := w.backups.items[name];
      w.(files := w.files[Managed(name) := w.files[info.path]], checksums := w.checksums[name := info.checksum])
  }

  function RolledBackAll(w: Writer, names: seq<Id>): Writer {
    if names == [] then w else RolledBack(RolledBackAll(w, names[..|names| - 1]), names[|names| - 1])
  }

  /** The names rolled back. */
  function Restored(w: Writer, names: seq<Id>): seq<Id> {
    if names == [] then []
    else
      var init, last := names[..|names| - 1], names[|names| - 1];
      Restored(w, init) + if CanRollBack(RolledBackAll(w, init), last) then [last] else []
  }

  class FileWriter {
    const cfg: Settings
    const backupEnabled: bool
    var files: Files
    var backups: Dict<Id, BackupInfo>
    var checksums: map<Id, Checksum>
    var written: seq<Id>
    var skipped: seq<Id>

    ghost function State(): Writer
      reads this
    {
      Writer(files, backups, checksums, written, skipped)
    }

    constructor (cfg: Settings, backupEnabled: bool, files: Files)
      ensures this.cfg == cfg && this.backupEnabled == backupEnabled
      ensures State() == Fresh(files)
    {
      this.cfg, this.backupEnabled, this.files := cfg, backupEnabled, files;
      backups, checksums, written, skipped := Dict([], map[]), map[], [], [];
    }

    /** `_validate_content`: the first rejecting callback raises; other exceptions are logged. */
    method Validate(verdicts: seq<Verdict>) returns (ok: bool)
      ensures ok <==> !exists v :: v in verdicts && Rejects(v)
    {
      for i := 0 to |verdicts|
        invariant forall j :: 0 <= j < i ==> !Rejects(verdicts[j])
      {
        if Rejects(verdicts[i]) {
          return false;
        }
      }
      return true;
    }

    method CreateBackup(name: Id, stamp: nat, fails: bool)
      requires Managed(name) in files
      modifies this`files, this`backups
      ensures State() == if fails then old(State()) else BackedUp(old(State()), name, stamp)
    {
      if fails {
        return;
      }
      var content := files[Managed(name)];
      files := files[Backup(name, stamp) := content];
      backups := backups.Put(name, BackupInfo(Backup(name, stamp), Md5Of(content)));
    }

    method WriteFile(name: Id, content: string, backup: Option<bool>, verdicts: seq<Verdict>,
                     metadata: Option<string>, stamp: nat, backupFails: bool, writeFails: bool)
        returns (r: Result<Id, WriteError>)
      modifies this
      ensures (State(), r)
        == Write(cfg, old(State()), Request(name, content, if backup.Some? then backup.value else backupEnabled,
                                            verdicts, metadata, stamp, backupFails, writeFails))
      ensures r.Ok? && !cfg.dryRun && old(ChecksumsMatch(State())) ==>
        Managed(name) in files && files[Managed(name)] == content
      ensures r.Ok? && !cfg.dryRun && written != old(written) ==>
        Managed(name) in files && files[Managed(name)] == content
    {
      var backingUp := if backup.Some? then backup.value else backupEnabled;
      if cfg.validation {
        var ok := Validate(verdicts);
        if !ok {
          return Err(ValidationFailed);
        }
      }
      if Managed(name) in files && name in checksums && checksums[name] == Md5Of(content) {
        skipped := skipped + [name];
        return Ok(name);
      }
      if backingUp && Managed(name) in files {
        CreateBackup(name, stamp, backupFails);
      }
      if !cfg.dryRun && writeFails {
        return Err(WriteFailed);
      }
      Store(name, content, metadata);
      return Ok(name);
    }

    /** The part of write after the backup. */
    method Store(name: Id, content: string, metadata: Option<string>)
      modifies this`files, this`checksums, this`written
      ensures State() == Stored(cfg, old(State()), name, content, metadata)
    {
      if !cfg.dryRun {
        files := files[Managed(name) := content];
        if cfg.checksums {
          checksums := checksums[name := Md5Of(content)];
        }
        written := written + [name];
      }
      if metadata.Some? {
        files := files[Metadata(cfg.stemOf(name)) := metadata.value];
      }
    }

    method IsFileChanged(name: Id) returns (changed: bool)
      ensures changed <==>
        !(Managed(name) in files && name in checksums && checksums[name] == Md5Of(files[Managed(name)]))
    {
      if Managed(name) !in files || name !in checksums {
        return true;
      }
      return checksums[name] != Md5Of(files[Managed(name)]);
    }

    method RollbackFile(name: Id) returns (done: bool)
      modifies this`files, this`checksums
      ensures done == CanRollBack(old(State()), name)
      ensures State() == RolledBack(old(State()), name)
    {
      if name !in backups.items {
        return false;
      }
      var info := backups.items[name];
      if info.path !in files {
        return false;
      }
      files := files[Managed(name) := files[info.path]];
      checksums := checksums[name := info.checksum];
      return true;
    }

    method RollbackAll() returns (rolledBack: seq<Id>)
      modifies this`files, this`checksums
      ensures State() == RolledBackAll(old(State()), old(backups.keys))
      ensures rolledBack == Restored(old(State()), old(backups.keys))
    {
      rolledBack := [];
      var names := backups.keys;
      for i := 0 to |names|
        invariant State() == RolledBackAll(old(State()), names[..i])
        invariant rolledBack == Restored(old(State()), names[..i])
      {
        assert names[..i + 1][..i] == names[..i];
        var done := RollbackFile(names[i]);
        if done {
          rolledBack := rolledBack + [names[i]];
        }
      }
      TakeAll(names);
    }
  }

  function Fresh(files: Files): Writer {
    Writer(files, Dict([], map[]), map[], [], [])
  }

  // ---- checksums -----------------------------------------------------------------------------

  /** Every stored checksum is that of its file. */
  ghost predicate ChecksumsMatch(w: Writer) {
    forall name :: name in w.checksums ==>
      Managed(name) in w.files && w.checksums[name] == Md5Of(w.files[Managed(name)])
  }

  /** Every backup is there, under its own file's name, with its checksum. */
  ghost predicate BackupsIntact(w: Writer) {
    && w.backups.Valid()
    && forall name :: name in w.backups.items ==> BackupIntact(w, name)
  }

  ghost predicate BackupIntact(w: Writer, name: Id)
    requires name in w.backups.items
  {
    var info := w.backups.items[name];
    info.path.Backup? && info.path.name == name && info.path in w.files && info.checksum == Md5Of(w.files[info.path])
  }

  /** A write is skipped only if the file holds just that content. */
  lemma {:induction false} SkipsOnlyIdentical(w: Writer, r: Request)
    requires ChecksumsMatch(w) && Unchanged(w, r)
    ensures w.files[Managed(r.name)] == r.content
  {
  }

  /** A write keeps the checksums right exactly when it records its own or there was none to go
      stale, unless it does not change the file at all. */
  lemma {:induction false} WriteKeepsChecksums(cfg: Settings, w: Writer, r: Request)
    requires ChecksumsMatch(w)
    ensures ChecksumsMatch(Write(cfg, w, r).0) <==> (Stores(cfg, w, r) ==> cfg.checksums || r.name !in w.checksums)
  {
    var after := Write(cfg, w, r).0;
    if Stores(cfg, w, r) {
      assert after.files[Managed(r.name)] == r.content;
      assert forall n :: n != r.name && Managed(n) in w.files ==>
          Managed(n) in after.files && after.files[Managed(n)] == w.files[Managed(n)];
    }
  }

  // ---- what one write does ------------------------------------------------------------------

  /** A write is refused exactly if validation is on and a callback returns false or raises a
      validation error; it is skipped exactly if the file is there under the checksum of the content;
      any other write fails exactly if the file cannot be written, unless in a dry run. */
  lemma {:induction false} WriteEnds(cfg: Settings, w: Writer, r: Request)
    ensures var (after, result) := Write(cfg, w, r);
      var refused := cfg.validation && (ReturnsFalse in r.verdicts || RaisesInvalid in r.verdicts);
      var same := Managed(r.name) in w.files && r.name in w.checksums && w.checksums[r.name] == Md5Of(r.content);
      && (result == Err(ValidationFailed) <==> refused)
      && (result == Err(WriteFailed) <==> !refused && !same && !cfg.dryRun && r.writeFails)
      && (result.Ok? ==> result.value == r.name)
      && (refused ==> after == w)
      && (!refused && same ==> after == w.(skipped := w.skipped + [r.name]))
      && (refused || !same ==> after.skipped == w.skipped)
      && after.written == w.written + (if result.Ok? && !same && !cfg.dryRun then [r.name] else [])
  {
    if Invalid(cfg, r) {
      var v :| v in r.verdicts && Rejects(v);
    } else if cfg.validation {
      assert ReturnsFalse in r.verdicts ==> !Rejects(ReturnsFalse);
      assert RaisesInvalid in r.verdicts ==> !Rejects(RaisesInvalid);
    }
  }

  /** A write that ends well outside a dry run leaves the content asked for in the file exactly if it
      stored it or the file held it already. One that stored with checksums on records the sum of that
      content; one with checksums off records none. */
  lemma {:induction false} WriteHolds(cfg: Settings, w: Writer, r: Request)
    requires Write(cfg, w, r).1.Ok? && !cfg.dryRun
    ensures var after := Write(cfg, w, r).0;
      var stored := |after.written| > |w.written|;
      && Managed(r.name) in after.files
      && (after.files[Managed(r.name)] == r.content <==>
            stored || (Managed(r.name) in w.files && w.files[Managed(r.name)] == r.content))
      && (ChecksumsMatch(w) ==> after.files[Managed(r.name)] == r.content)
      && (stored && cfg.checksums ==> after.checksums == w.checksums[r.name := Md5Of(r.content)])
      && (!stored || !cfg.checksums ==> after.checksums == w.checksums)
  {
  }

  /** What a write leaves alone, and what it stores beside the file: no other managed file changes; a
      write that goes through stores the metadata it is given for the file's stem and no other; a
      backup holds the content the file had. */
  lemma {:induction false} WriteTouches(cfg: Settings, w: Writer, r: Request, p: Path)
    ensures var (after, result) := Write(cfg, w, r);
      var through := result.Ok? && after.skipped == w.skipped;
      var backsUp := result != Err(ValidationFailed) && after.skipped == w.skipped && r.backup && !r.backupFails
                     && Managed(r.name) in w.files;
      && (p.Managed? && p.name != r.name ==> SameFile(after, w, p))
      && (p.Managed? && (cfg.dryRun || !through) ==> SameFile(after, w, p))
      && (p.Metadata? && through && r.metadata.Some? && p.stem == cfg.stemOf(r.name) ==>
            p in after.files && after.files[p] == r.metadata.value)
      && (p.Metadata? && !(through && r.metadata.Some? && p.stem == cfg.stemOf(r.name)) ==> SameFile(after, w, p))
      && (p == Backup(r.name, r.stamp) && backsUp ==>
            p in after.files && after.files[p] == w.files[Managed(r.name)])
      && (p.Backup? && !(backsUp && p == Backup(r.name, r.stamp)) ==> SameFile(after, w, p))
  {
  }

  lemma {:induction false} RollbackKeepsChecksums(w: Writer, name: Id)
    requires ChecksumsMatch(w) && BackupsIntact(w)
    ensures ChecksumsMatch(RolledBack(w, name))
  {
  }

  // ---- runs --------------------------------------------------------------------------------------

  datatype Op = WriteOp(request: Request) | RollbackOp(name: Id) | RollbackAllOp

  function Step(cfg: Settings, w: Writer, op: Op): Writer {
    match op
    case WriteOp(r) => Write(cfg, w, r).0
    case RollbackOp(name) => RolledBack(w, name)
    case RollbackAllOp => RolledBackAll(w, w.backups.keys)
  }

  function Run(cfg: Settings, files: Files, ops: seq<Op>): Writer {
    if ops == [] then Fresh(files) else Step(cfg, Run(cfg, files, ops[..|ops| - 1]), ops[|ops| - 1])
  }

  /** The content a file had just before its latest write with a backup. */
  function BeforeLatest(cfg: Settings, files: Files, ops: seq<Op>, name: Id): Option<string> {
    if ops == [] then None
    else
      var init, op := ops[..|ops| - 1], ops[|ops| - 1];
      var w := Run(cfg, files, init);
      if op.WriteOp? && op.request.name == name && BacksUp(cfg, w, op.request) then Some(w.files[Managed(name)])
      else BeforeLatest(cfg, files, init, name)
  }

  /** What the backup of a file holds, if it has one. */
  function BackupContent(w: Writer, name: Id): Option<string> {
    if CanRollBack(w, name) then Some(w.files[w.backups.items[name].path]) else None
  }

  lemma {:induction false} BackedUpHolds(w: Writer, name: Id, stamp: nat, other: Id)
    requires BackupsIntact(w) && Managed(name) in w.files
    ensures BackupsIntact(BackedUp(w, name, stamp))
    ensures BackupContent(BackedUp(w, name, stamp), other)
      == if other == name then Some(w.files[Managed(name)]) else BackupContent(w, other)
  {
    var after := BackedUp(w, name, stamp);
    PutValid(w.backups, name, BackupInfo(Backup(name, stamp), Md5Of(w.files[Managed(name)])));
    forall n | n in after.backups.items ensures BackupIntact(after, n) {
      if n != name {
        assert BackupIntact(w, n);
      }
    }
    if other in w.backups.items {
      assert BackupIntact(w, other);
    }
  }

  /** Changes that touch no backup. */
  ghost predicate SameBackups(after: Writer, before: Writer) {
    after.backups == before.backups && forall n, s :: SameFile(after, before, Backup(n, s))
  }

  lemma {:induction false} SameBackupsHold(after: Writer, w: Writer, other: Id)
    requires BackupsIntact(w) && SameBackups(after, w)
    ensures BackupsIntact(after) && BackupContent(after, other) == BackupContent(w, other)
  {
    forall n | n in after.backups.items ensures BackupIntact(after, n) {
      assert BackupIntact(w, n);
      assert SameFile(after, w, Backup(n, w.backups.items[n].path.stamp));
    }
    if other in w.backups.items {
      assert BackupIntact(w, other);
      assert SameFile(after, w, Backup(other, w.backups.items[other].path.stamp));
    }
  }

  lemma {:induction false} WriteBackups(cfg: Settings, w: Writer, r: Request, name: Id)
    requires BackupsIntact(w)
    ensures BackupsIntact(Write(cfg, w, r).0)
    ensures BackupContent(Write(cfg, w, r).0, name)
      == if r.name == name && BacksUp(cfg, w, r) then Some(w.files[Managed(name)]) else BackupContent(w, name)
  {
    if BacksUp(cfg, w, r) {
      BackedUpHolds(w, r.name, r.stamp, name);
    }
    var ready := if BacksUp(cfg, w, r) then BackedUp(w, r.name, r.stamp) else w;
    SameBackupsHold(Write(cfg, w, r).0, ready, name);
  }

  lemma {:induction false} RollbackBackups(w: Writer, name: Id, other: Id)
    requires BackupsIntact(w)
    ensures BackupsIntact(RolledBack(w, name)) && RolledBack(w, name).backups == w.backups
    ensures BackupContent(RolledBack(w, name), other) == BackupContent(w, other)
  {
    var after := RolledBack(w, name);
    forall n | n in after.backups.items ensures BackupIntact(after, n) {
      assert BackupIntact(w, n);
    }
    if other in w.backups.items {
      assert BackupIntact(w, other);
    }
  }

  lemma {:induction false} RollbackAllKeeps(w: Writer, names: seq<Id>, other: Id)
    requires BackupsIntact(w)
    ensures BackupsIntact(RolledBackAll(w, names)) && RolledBackAll(w, names).backups == w.backups
    ensures BackupContent(RolledBackAll(w, names), other) == BackupContent(w, other)
    ensures ChecksumsMatch(w) ==> ChecksumsMatch(RolledBackAll(w, names))
  {
    if names != [] {
      var init, last := names[..|names| - 1], names[|names| - 1];
      RollbackAllKeeps(w, init, other);
      RollbackBackups(RolledBackAll(w, init), last, other);
      if ChecksumsMatch(w) {
        RollbackKeepsChecksums(RolledBackAll(w, init), last);
      }
    }
  }

  /** Over any run each backup holds its file's content just before the latest write that made a
      backup of it. */
  lemma {:induction false} BackupsHold(cfg: Settings, files: Files, ops: seq<Op>, name: Id)
    ensures BackupsIntact(Run(cfg, files, ops))
    ensures BackupContent(Run(cfg, files, ops), name) == BeforeLatest(cfg, files, ops, name)
  {
    if ops != [] {
      var init, op := ops[..|ops| - 1], ops[|ops| - 1];
      BackupsHold(cfg, files, init, name);
      var w := Run(cfg, files, init);
      match op {
        case WriteOp(r) => WriteBackups(cfg, w, r, name);
        case RollbackOp(n) => RollbackBackups(w, n, name);
        case RollbackAllOp => RollbackAllKeeps(w, w.backups.keys, name);
      }
    }
  }

  /** With checksums on, every stored checksum is that of its file after any run of writes and
      rollbacks. */
  lemma {:induction false} ChecksumsAlwaysMatch(cfg: Settings, files: Files, ops: seq<Op>)
    requires cfg.checksums
    ensures ChecksumsMatch(Run(cfg, files, ops))
  {
    if ops != [] {
      var init, op := ops[..|ops| - 1], ops[|ops| - 1];
      ChecksumsAlwaysMatch(cfg, files, init);
      var w := Run(cfg, files, init);
      BackupsHold(cfg, files, init, Id(""));
      match op {
        case WriteOp(r) => WriteKeepsChecksums(cfg, w, r);
        case RollbackOp(n) => RollbackKeepsChecksums(w, n);
        case RollbackAllOp => RollbackAllKeeps(w, w.backups.keys, Id(""));
      }
    }
  }

  // ---- what a file holds ----------------------------------------------------------------------

  /** The operation puts back the file's backup. */
  predicate Restores(w: Writer, op: Op, name: Id) {
    (op.RollbackAllOp? || (op.RollbackOp? && op.name == name)) && CanRollBack(w, name)
  }

  predicate StoresTo(cfg: Settings, w: Writer, op: Op, name: Id) {
    op.WriteOp? && op.request.name == name && Stores(cfg, w, op.request)
  }

  /** The content a file should have: that of its latest storing write or, if that came later, of the
      rollback that restored it, which goes back to just before the latest write with a backup. */
  function LatestContent(cfg: Settings, files: Files, ops: seq<Op>, name: Id): Option<string> {
    if ops == [] then (if Managed(name) in files then Some(files[Managed(name)]) else None)
    else
      var init, op := ops[..|ops| - 1], ops[|ops| - 1];
      var w := Run(cfg, files, init);
      if StoresTo(cfg, w, op, name) then Some(op.request.content)
      else if Restores(w, op, name) then BeforeLatest(cfg, files, init, name)
      else LatestContent(cfg, files, init, name)
  }

  function ContentOf(w: Writer, name: Id): Option<string> {
    if Managed(name) in w.files then Some(w.files[Managed(name)]) else None
  }

  lemma {:induction false} StepContent(cfg: Settings, w: Writer, op: Op, name: Id)
    requires BackupsIntact(w)
    ensures ContentOf(Step(cfg, w, op), name)
      == if StoresTo(cfg, w, op, name) then Some(op.request.content)
         else if Restores(w, op, name) then BackupContent(w, name) else ContentOf(w, name)
  {
    match op {
      case WriteOp(r) => WriteTouches(cfg, w, r, Managed(name));
      case RollbackOp(n) => if CanRollBack(w, n) { OneRestored(w, n, name); }
      case RollbackAllOp =>
        RestoresListed(w, w.backups.keys, name);
        if name in w.backups.items { assert BackupIntact(w, name); }
    }
  }

  /** Over any run of writes and rollbacks, with checksums on or off, every file holds just that. */
  lemma {:induction false} FileHoldsLatest(cfg: Settings, files: Files, ops: seq<Op>, name: Id)
    ensures ContentOf(Run(cfg, files, ops), name) == LatestContent(cfg, files, ops, name)
  {
    if ops != [] {
      var init := ops[..|ops| - 1];
      FileHoldsLatest(cfg, files, init, name);
      BackupsHold(cfg, files, init, name);
      StepContent(cfg, Run(cfg, files, init), ops[|ops| - 1], name);
    }
  }

  /** With checksums on and outside a dry run, after any run a write that ends well leaves the file
      with the content asked for. */
  lemma {:induction false} SuccessfulWriteHolds(cfg: Settings, files: Files, ops: seq<Op>, r: Request)
    requires cfg.checksums && !cfg.dryRun && Write(cfg, Run(cfg, files, ops), r).1.Ok?
    ensures ContentOf(Run(cfg, files, ops + [WriteOp(r)]), r.name) == Some(r.content)
  {
    ChecksumsAlwaysMatch(cfg, files, ops);
    WriteHolds(cfg, Run(cfg, files, ops), r);
    assert (ops + [WriteOp(r)])[..|ops|] == ops;
  }

  // ---- runs with checksums off ---------------------------------------------------------------

  /** What the operations so far say about a file's checksum when writes store none. */
  datatype Mark = NoChecksum | Right | Stale

  /** Right after a rollback that restored the file, stale once it is stored again. */
  function MarkOf(cfg: Settings, files: Files, ops: seq<Op>, name: Id): Mark {
    if ops == [] then NoChecksum
    else
      var init, op := ops[..|ops| - 1], ops[|ops| - 1];
      var w, before := Run(cfg, files, init), MarkOf(cfg, files, init, name);
      if Restores(w, op, name) then Right
      else if StoresTo(cfg, w, op, name) && before != NoChecksum then Stale
      else before
  }

  /** The mark tells whether there is a checksum and whether it is right. */
  ghost predicate Marked(w: Writer, name: Id, mark: Mark) {
    && (name in w.checksums <==> mark != NoChecksum)
    && (name in w.checksums ==>
          Managed(name) in w.files && (mark == Right <==> w.checksums[name] == Md5Of(w.files[Managed(name)])))
  }

  lemma {:induction false} WriteMarks(cfg: Settings, w: Writer, r: Request, name: Id, mark: Mark)
    requires !cfg.checksums && Marked(w, name, mark)
    ensures Marked(Write(cfg, w, r).0, name,
                   if StoresTo(cfg, w, WriteOp(r), name) && mark != NoChecksum then Stale else mark)
  {
  }

  lemma {:induction false} RollbackMarks(w: Writer, n: Id, name: Id, mark: Mark)
    requires BackupsIntact(w) && Marked(w, name, mark)
    ensures Marked(RolledBack(w, n), name, if n == name && CanRollBack(w, name) then Right else mark)
  {
    if n in w.backups.items {
      assert BackupIntact(w, n);
    }
  }

  lemma {:induction false} RollbackAllMarks(w: Writer, names: seq<Id>, name: Id, mark: Mark)
    requires BackupsIntact(w) && Marked(w, name, mark) && forall n :: n in names ==> n in w.backups.items
    ensures Marked(RolledBackAll(w, names), name, if name in names then Right else mark)
  {
    if names != [] {
      var init, last := names[..|names| - 1], names[|names| - 1];
      assert last in names && forall n :: n in init ==> n in names;
      RollbackAllMarks(w, init, name, mark);
      RollbackAllKeeps(w, init, name);
      var mid := RolledBackAll(w, init);
      assert BackupIntact(mid, last);
      RollbackMarks(mid, last, name, if name in init then Right else mark);
      Snoc(names);
      assert name in names <==> name in init || name == last;
    }
  }

  lemma {:induction false} StepMarks(cfg: Settings, w: Writer, op: Op, name: Id, mark: Mark)
    requires !cfg.checksums && BackupsIntact(w) && Marked(w, name, mark)
    ensures Marked(Step(cfg, w, op), name,
                   if Restores(w, op, name) then Right
                   else if StoresTo(cfg, w, op, name) && mark != NoChecksum then Stale else mark)
  {
    match op {
      case WriteOp(r) => WriteMarks(cfg, w, r, name, mark);
      case RollbackOp(n) => RollbackMarks(w, n, name, mark);
      case RollbackAllOp =>
        RollbackAllMarks(w, w.backups.keys, name, mark);
        if name in w.backups.items { assert BackupIntact(w, name); }
    }
  }

  /** With checksums off, after any run a file has a stored checksum exactly if a rollback restored
      it, and that checksum is wrong exactly if the file was stored after the latest such rollback. */
  lemma {:induction false} MarksTell(cfg: Settings, files: Files, ops: seq<Op>, name: Id)
    requires !cfg.checksums
    ensures Marked(Run(cfg, files, ops), name, MarkOf(cfg, files, ops, name))
  {
    if ops != [] {
      var init := ops[..|ops| - 1];
      MarksTell(cfg, files, init, name);
      BackupsHold(cfg, files, init, name);
      StepMarks(cfg, Run(cfg, files, init), ops[|ops| - 1], name, MarkOf(cfg, files, init, name));
    }
  }

  predicate IsStale(cfg: Settings, files: Files, ops: seq<Op>, name: Id) {
    MarkOf(cfg, files, ops, name) == Stale
  }

  /** After any run every stored checksum is its file's if and only if checksums are on or no file was
      stored after the latest rollback that restored it. */
  lemma {:induction false} ChecksumsMatchExactly(cfg: Settings, files: Files, ops: seq<Op>)
    ensures ChecksumsMatch(Run(cfg, files, ops)) <==> cfg.checksums || forall name :: !IsStale(cfg, files, ops, name)
  {
    if cfg.checksums {
      ChecksumsAlwaysMatch(cfg, files, ops);
    } else {
      var w := Run(cfg, files, ops);
      if ChecksumsMatch(w) {
        forall name ensures !IsStale(cfg, files, ops, name) {
          MarksTell(cfg, files, ops, name);
        }
      } else {
        var name :| name in w.checksums &&
          !(Managed(name) in w.files && w.checksums[name] == Md5Of(w.files[Managed(name)]));
        MarksTell(cfg, files, ops, name);
        assert IsStale(cfg, files, ops, name);
      }
    }
  }

  // ---- rolling everything back --------------------------------------------------------------------

  lemma {:induction false} OneRestored(w: Writer, last: Id, name: Id)
    requires last in w.backups.items && BackupIntact(w, last)
    ensures CanRollBack(w, last)
    ensures var after := RolledBack(w, last);
      && Managed(last) in after.files && BackupContent(w, last) == Some(after.files[Managed(last)])
      && (name != last ==> SameFile(after, w, Managed(name)))
  {
  }

  lemma {:induction false} RestoresListed(w: Writer, names: seq<Id>, name: Id)
    requires BackupsIntact(w) && Distinct(names) && forall n :: n in names ==> n in w.backups.items
    ensures var after := RolledBackAll(w, names);
      && (name in names ==> Managed(name) in after.files && BackupContent(w, name) == Some(after.files[Managed(name)]))
      && (name !in names ==> SameFile(after, w, Managed(name)))
      && Restored(w, names) == names
  {
    if names != [] {
      var init, last := names[..|names| - 1], names[|names| - 1];
      assert forall n :: n in init ==> n in names;
      RestoresListed(w, init, name);
      RollbackAllKeeps(w, init, last);
      var mid := RolledBackAll(w, init);
      assert last in names && last in w.backups.items;
      assert BackupIntact(mid, last);
      OneRestored(mid, last, name);
      Snoc(names);
      assert name in names <==> name in init || name == last;
    }
  }

  ghost predicate SameFile(after: Writer, before: Writer, p: Path) {
    (p in after.files <==> p in before.files) && (p in before.files ==> after.files[p] == before.files[p])
  }

  /** After any run, rolling everything back gives each file that was ever backed up its content
      from just before its latest write with a backup, reports all of them, and leaves every other
      file alone. */
  lemma {:induction false} RollbackAllRestores(cfg: Settings, files: Files, ops: seq<Op>, name: Id)
    ensures var w := Run(cfg, files, ops);
      var after := RolledBackAll(w, w.backups.keys);
      && (BeforeLatest(cfg, files, ops, name).Some? ==>
            Managed(name) in after.files && after.files[Managed(name)] == BeforeLatest(cfg, files, ops, name).value)
      && (BeforeLatest(cfg, files, ops, name).None? ==> SameFile(after, w, Managed(name)))
      && Restored(w, w.backups.keys) == w.backups.keys
  {
    var w := Run(cfg, files, ops);
    BackupsHold(cfg, files, ops, name);
    RestoresListed(w, w.backups.keys, name);
    if name in w.backups.items {
      assert BackupIntact(w, name);
    }
  }

  /** With checksums off a rollback still stores one, which a later write leaves stale: rewriting
      the rolled-back content is then skipped although the file holds something else. */
  lemma {:induction false} StaleChecksumSkips(cfg: Settings, name: Id, x: string, y: string)
    requires !cfg.checksums && !cfg.validation && !cfg.dryRun && x != y
    ensures var put := (content: string) => WriteOp(Request(name, content, true, [], None, 0, false, false));
      var w := Run(cfg, map[], [put(x), put(y), RollbackOp(name), put(y)]);
      && Unchanged(w, put(x).request)
      && w.files[Managed(name)] == y
  {
    var px := WriteOp(Request(name, x, true, [], None, 0, false, false));
    var py := WriteOp(Request(name, y, true, [], None, 0, false, false));
    var ops := [px, py, RollbackOp(name), py];
    assert ops[..3][..2][..1][..0] == [] && ops[..3][..2][..1] == [px] && ops[..3][..2] == [px, py] &&
        ops[..3] == [px, py, RollbackOp(name)];
    var w0 := Fresh(map[]);
    var w1 := Step(cfg, w0, px);
    assert w1.files[Managed(name)] == x && name !in w1.checksums;
    var w2 := Step(cfg, w1, py);
    assert w2.files[Managed(name)] == y && name !in w2.checksums &&
        w2.backups.items[name] == BackupInfo(Backup(name, 0), Md5Of(x));
    assert w2.files[Backup(name, 0)] == x;
    var w3 := Step(cfg, w2, RollbackOp(name));
    assert w3.files[Managed(name)] == x && w3.checksums[name] == Md5Of(x);
    var w4 := Step(cfg, w3, py);
    assert w4.files[Managed(name)] == y && w4.checksums[name] == Md5Of(x);
    assert Run(cfg, map[], [px]) == w1;
    assert Run(cfg, map[], [px, py]) == w2;
    assert Run(cfg, map[], [px, py, RollbackOp(name)]) == w3;
    assert Run(cfg, map[], ops) == w4;
  }
}
