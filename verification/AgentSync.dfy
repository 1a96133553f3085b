/** `agents/sync.py`: planning and running the synchronisation of persona files. */
module AgentSync {
  import opened Collections
  import opened SlugMap

  /** A file as the planner sees it: text, or a read that fails with OSError, or text that is not
      valid UTF-8 (whose error the planner does not catch). */
  datatype File = Text(content: string) | Unreadable | Undecodable

  /** `out_dir / f"{slug}.md"` */
  datatype Path = Path(dir: string, slug: string)

  datatype Action = Create | Update | Skip | Conflict

  datatype Scope = Project | Global | Both

  datatype Config = Config(force: bool, includeDepartments: bool, scope: Scope,
                           outputDir: Option<string>, globalDir: string)

  const PROJECT_AGENTS_DIR := ".opencode/agents"

  function OutputDirs(config: Config): seq<string> {
    if config.outputDir.Some? then [config.outputDir.value]
    else match config.scope
      case Project => [PROJECT_AGENTS_DIR]
      case Global => [config.globalDir]
      case Both => [PROJECT_AGENTS_DIR, config.globalDir]
  }

  /** A file the personas call for, and what is to be done about it. */
  datatype Target = Target(slug: string, path: Path, content: string)

  datatype Entry = Entry(target: Target, action: Action)

  datatype PlanError = DepartmentsNotImplemented | SlugCollisions | NotUtf8(path: Path)

  datatype SyncResult = SyncResult(created: seq<string>, updated: seq<string>, skipped: seq<string>,
                                   conflicts: seq<string>, errors: seq<Path>)

  type Files = map<Path, File>

  // ---- planning --------------------------------------------------------------------

  function ActionFor(files: Files, force: bool, t: Target): Action {
    if t.path !in files then Create
    else if !files[t.path].Text? then Conflict
    else if files[t.path].content == t.content then Skip
    else if force then Update else Conflict
  }

  /** One persona's targets, one in each output directory. */
  function TargetsIn(dirs: seq<string>, slug: string, content: string): (ts: seq<Target>)
    ensures |ts| == |dirs|
    ensures forall j :: 0 <= j < |ts| ==> ts[j] == Target(slug, Path(dirs[j], slug), content)
  {
    if dirs == [] then []
    else
      var last := dirs[|dirs| - 1];
      TargetsIn(dirs[..|dirs| - 1], slug, content) + [Target(slug, Path(last, slug), content)]
  }

  function Planned(files: Files, force: bool, targets: seq<Target>): (entries: seq<Entry>)
    ensures |entries| == |targets|
    ensures forall i :: 0 <= i < |targets| ==> entries[i] == Entry(targets[i], ActionFor(files, force, targets[i]))
  {
    seq(|targets|, i requires 0 <= i < |targets| => Entry(targets[i], ActionFor(files, force, targets[i])))
  }

  lemma {:induction false} PlannedNext(files: Files, force: bool, targets: seq<Target>, t: Target)
    ensures Planned(files, force, targets + [t])
      == Planned(files, force, targets) + [Entry(t, ActionFor(files, force, t))]
  {
  }

  /** The file holds just the text that is wanted. */
  predicate Current(files: Files, t: Target) {
    t.path in files && files[t.path] == Text(t.content)
  }

  /** The file holds another text. */
  predicate Differs(files: Files, t: Target) {
    t.path in files && files[t.path].Text? && files[t.path].content != t.content
  }

  /** Which action is planned: create exactly for an absent file, skip exactly for one that holds just
      the wanted text, update exactly for another text under force, and conflict exactly for another
      text without force or a file that could not be read. */
  lemma {:induction false} PlannedExactly(files: Files, force: bool, targets: seq<Target>, i: nat)
    requires i < |targets|
    ensures var t, action := targets[i], Planned(files, force, targets)[i].action;
      && Planned(files, force, targets)[i].target == t
      && (action == Create <==> t.path !in files)
      && (action == Skip <==> Current(files, t))
      && (action == Update <==> force && Differs(files, t))
      && (action == Conflict <==> t.path in files && (!files[t.path].Text? || (!force && Differs(files, t))))
  {
  }

  predicate Readable(files: Files, t: Target) {
    t.path in files ==> !files[t.path].Undecodable?
  }

  ghost predicate AllReadable(files: Files, targets: seq<Target>) {
    forall t :: t in targets ==> Readable(files, t)
  }

  lemma {:induction false} AllReadableNext(files: Files, targets: seq<Target>, t: Target)
    ensures AllReadable(files, targets + [t]) <==> AllReadable(files, targets) && Readable(files, t)
  {
    assert t in targets + [t];
    assert forall u :: u in targets ==> u in targets + [t];
  }

  ghost predicate DistinctPaths(targets: seq<Target>) {
    forall i, j :: 0 <= i < j < |targets| ==> targets[i].path != targets[j].path
  }

  // ---- running ---------------------------------------------------------------------

  /** Whether running the entry writes its file. */
  predicate Writes(e: Entry, unwritable: set<Path>) {
    (e.action == Create || e.action == Update) && e.target.path !in unwritable
  }

  predicate Fails(e: Entry, unwritable: set<Path>) {
    (e.action == Create || e.action == Update) && e.target.path in unwritable
  }

  function ApplyOne(files: Files, e: Entry, unwritable: set<Path>): Files {
    if Writes(e, unwritable) then files[e.target.path := Text(e.target.content)] else files
  }

  function Applied(files: Files, entries: seq<Entry>, unwritable: set<Path>): Files {
    if entries == [] then files
    else ApplyOne(Applied(files, entries[..|entries| - 1], unwritable), entries[|entries| - 1], unwritable)
  }

  const NOTHING_YET := SyncResult([], [], [], [], [])

  function Enter(r: SyncResult, action: Action, slug: string): SyncResult {
    match action
    case Create => r.(created := r.created + [slug])
    case Update => r.(updated := r.updated + [slug])
    case Skip => r.(skipped := r.skipped + [slug])
    case Conflict => r.(conflicts := r.conflicts + [slug])
  }

  /** The result lists and the set of recorded slugs after some entries. */
  function Recorded(entries: seq<Entry>, unwritable: set<Path>): (SyncResult, set<string>) {
    if entries == [] then (NOTHING_YET, {})
    else
      var (r, seen) := Recorded(entries[..|entries| - 1], unwritable);
      var e := entries[|entries| - 1];
      if Fails(e, unwritable) then (r.(errors := r.errors + [e.target.path]), seen)
      else if e.target.slug in seen then (r, seen)
      else (Enter(r, e.action, e.target.slug), seen + {e.target.slug})
  }

  lemma {:induction false} RunNext(files: Files, entries: seq<Entry>, i: nat, unwritable: set<Path>)
    requires i < |entries|
    ensures Applied(files, entries[..i + 1], unwritable)
      == ApplyOne(Applied(files, entries[..i], unwritable), entries[i], unwritable)
    ensures var (r, seen) := Recorded(entries[..i], unwritable);
      var e := entries[i];
      Recorded(entries[..i + 1], unwritable)
        == if Fails(e, unwritable) then (r.(errors := r.errors + [e.target.path]), seen)
           else if e.target.slug in seen then (r, seen)
           else (Enter(r, e.action, e.target.slug), seen + {e.target.slug})
  {
    assert entries[..i + 1][..i] == entries[..i];
  }

  class AgentSyncEngine {
    const config: Config
    const index: AgentSlugIndex
    const render: (Item, string) -> string
    const unwritable: set<Path>
    var files: Files

    constructor (config: Config, index: AgentSlugIndex, render: (Item, string) -> string,
                 unwritable: set<Path>, files: Files)
      ensures this.config == config && this.index == index && this.render == render
      ensures this.unwritable == unwritable && this.files == files
    {
      this.config, this.index, this.render := config, index, render;
      this.unwritable, this.files := unwritable, files;
    }

    ghost function Slugs(): (s: seq<string>)
      ensures |s| == |index.items|
    {
      index.AssignFirst(|index.items|).slugs
    }

    /** The files called for by the first n personas: persona by persona, directory by directory. */
    ghost function Targets(dirs: seq<string>, slugs: seq<string>, n: nat): seq<Target>
      requires n <= |slugs| == |index.items|
    {
      if n == 0 then [] else Targets(dirs, slugs, n - 1) + PersonaTargets(dirs, slugs[n - 1], n - 1)
    }

    ghost function PersonaTargets(dirs: seq<string>, slug: string, i: nat): seq<Target>
      requires i < |index.items|
    {
      TargetsIn(dirs, slug, render(index.items[i], slug))
    }

    ghost function AllTargets(): seq<Target> {
      Targets(OutputDirs(config), Slugs(), |index.items|)
    }

    ghost predicate CanPlan(files: Files) {
      !config.includeDepartments && index.CollisionFree() && AllReadable(files, AllTargets())
    }

    /** `plan`: fails, or decides one action for every target from the files as they are. */
    method Plan() returns (r: Result<seq<Entry>, PlanError>)
      ensures r.Ok? <==> CanPlan(files)
      ensures r.Ok? ==> r.value == Planned(files, config.force, AllTargets())
    {
      if config.includeDepartments {
        return Err(DepartmentsNotImplemented);
      }
      var slugs := index.ResolvedSlugs();
      var messages, repeated := index.Collisions();
      index.CollisionsExact(messages, repeated);
      if messages != [] || repeated != map[] {
        return Err(SlugCollisions);
      }
      r := PlanTargets(OutputDirs(config), slugs);
    }

    method PlanTargets(dirs: seq<string>, slugs: seq<string>) returns (r: Result<seq<Entry>, PlanError>)
      requires |slugs| == |index.items|
      ensures r.Ok? <==> AllReadable(files, Targets(dirs, slugs, |slugs|))
      ensures r.Ok? ==> r.value == Planned(files, config.force, Targets(dirs, slugs, |slugs|))
    {
      var entries: seq<Entry> := [];
      for i := 0 to |slugs|
        invariant AllReadable(files, Targets(dirs, slugs, i))
        invariant entries == Planned(files, config.force, Targets(dirs, slugs, i))
      {
        r := PlanPersona(dirs, slugs, i, entries);
        if r.Err? {
          StillUnreadable(files, dirs, slugs, i + 1);
          return;
        }
        entries := r.value;
      }
      return Ok(entries);
    }

    lemma {:induction false} StillUnreadable(files: Files, dirs: seq<string>, slugs: seq<string>, n: nat)
      requires n <= |slugs| == |index.items| && !AllReadable(files, Targets(dirs, slugs, n))
      ensures !AllReadable(files, Targets(dirs, slugs, |slugs|))
      decreases |slugs| - n
    {
      if n < |slugs| {
        UnreadableConcat(files, Targets(dirs, slugs, n), PersonaTargets(dirs, slugs[n], n));
        StillUnreadable(files, dirs, slugs, n + 1);
      }
    }

    /** The inner loop of plan over the output directories. */
    method PlanPersona(dirs: seq<string>, slugs: seq<string>, i: nat, entries: seq<Entry>)
        returns (r: Result<seq<Entry>, PlanError>)
      requires i < |slugs| == |index.items|
      requires AllReadable(files, Targets(dirs, slugs, i)) &&
          entries == Planned(files, config.force, Targets(dirs, slugs, i))
      ensures r.Ok? <==> AllReadable(files, Targets(dirs, slugs, i + 1))
      ensures r.Ok? ==> r.value == Planned(files, config.force, Targets(dirs, slugs, i + 1))
    {
      var slug := slugs[i];
      var content := render(index.items[i], slug);
      ghost var before := Targets(dirs, slugs, i);
      var es := entries;
      assert before + [] == before;
      for j := 0 to |dirs|
        invariant AllReadable(files, before + TargetsIn(dirs[..j], slug, content))
        invariant es == Planned(files, config.force, before + TargetsIn(dirs[..j], slug, content))
      {
        var t := Target(slug, Path(dirs[j], slug), content);
        DirNext(dirs, j, slug, content, before);
        if !Readable(files, t) {
          assert t in before + TargetsIn(dirs, slug, content) by {
            assert TargetsIn(dirs, slug, content)[j] == t;
          }
          return Err(NotUtf8(t.path));
        }
        AllReadableNext(files, before + TargetsIn(dirs[..j], slug, content), t);
        PlannedNext(files, config.force, before + TargetsIn(dirs[..j], slug, content), t);
        es := es + [Entry(t, ActionFor(files, config.force, t))];
      }
      TakeAll(dirs);
      return Ok(es);
    }

    /** `run`: plans, then writes the create and update entries and records every slug once. */
    method Run() returns (r: Result<SyncResult, PlanError>)
      modifies this`files
      ensures r.Ok? <==> old(CanPlan(files))
      ensures r.Err? ==> files == old(files)
      ensures r.Ok? ==>
        var entries := Planned(old(files), config.force, AllTargets());
        files == Applied(old(files), entries, unwritable) && r.value == Recorded(entries, unwritable).0
    {
      var plan := Plan();
      if plan.Err? {
        return Err(plan.error);
      }
      var entries := plan.value;
      var lists := NOTHING_YET;
      var seen: set<string> := {};
      for i := 0 to |entries|
        invariant files == Applied(old(files), entries[..i], unwritable)
        invariant (lists, seen) == Recorded(entries[..i], unwritable)
      {
        var e := entries[i];
        RunNext(old(files), entries, i, unwritable);
        if (e.action == Create || e.action == Update) && e.target.path in unwritable {
          lists := lists.(errors := lists.errors + [e.target.path]);
        } else {
          if e.action == Create || e.action == Update {
            files := files[e.target.path := Text(e.target.content)];
          }
          if e.target.slug !in seen {
            seen := seen + {e.target.slug};
            lists := Enter(lists, e.action, e.target.slug);
          }
        }
      }
      TakeAll(entries);
      return Ok(lists);
    }

    /** A file for the i-th persona in one of the directories. */
    ghost predicate TargetOf(dirs: seq<string>, slugs: seq<string>, i: nat, t: Target)
      requires i < |slugs| == |index.items|
    {
      && t.slug == slugs[i] && t.path.slug == slugs[i] && t.path.dir in dirs
      && t.content == render(index.items[i], slugs[i])
    }

    lemma {:induction false} TargetsAre(dirs: seq<string>, slugs: seq<string>, n: nat, t: Target)
      requires n <= |slugs| == |index.items|
      ensures t in Targets(dirs, slugs, n) <==> exists i :: 0 <= i < n && TargetOf(dirs, slugs, i, t)
    {
      if n > 0 {
        TargetsAre(dirs, slugs, n - 1, t);
        InDirs(dirs, slugs[n - 1], render(index.items[n - 1], slugs[n - 1]), t);
        var earlier, own := Targets(dirs, slugs, n - 1), PersonaTargets(dirs, slugs[n - 1], n - 1);
        assert t in earlier + own <==> t in earlier || t in own;
        assert t in own <==> TargetOf(dirs, slugs, n - 1, t);
      }
    }

    /** The files called for: for every persona its own rendering under its slug, in the output directory
        if one is given, else in the project's, the global one or both, as the scope says. */
    lemma {:induction false} TargetsExactly(t: Target)
      ensures t in AllTargets() <==>
        && (exists i :: 0 <= i < |index.items| && TargetOf([t.path.dir], Slugs(), i, t))
        && if config.outputDir.Some? then t.path.dir == config.outputDir.value
           else || (config.scope != Global && t.path.dir == PROJECT_AGENTS_DIR)
                || (config.scope != Project && t.path.dir == config.globalDir)
    {
      var dirs := OutputDirs(config);
      TargetsAre(dirs, Slugs(), |index.items|, t);
      forall i | 0 <= i < |index.items|
        ensures TargetOf(dirs, Slugs(), i, t) <==> t.path.dir in dirs && TargetOf([t.path.dir], Slugs(), i, t)
      {
        assert t.path.dir in [t.path.dir];
      }
    }

    lemma {:induction false} TargetSlugs(dirs: seq<string>, slugs: seq<string>, n: nat)
      requires n <= |slugs| == |index.items|
      ensures SlugsAmong(Targets(dirs, slugs, n), slugs[..n])
    {
      if n > 0 {
        TargetSlugs(dirs, slugs, n - 1);
        TakeNext(slugs, n - 1);
      }
    }

    /** Unique slugs and distinct directories give every target its own path. */
    lemma {:induction false} TargetPathsDistinct(dirs: seq<string>, slugs: seq<string>, n: nat)
      requires n <= |slugs| == |index.items|
      requires Distinct(slugs) && Distinct(dirs)
      ensures DistinctPaths(Targets(dirs, slugs, n))
    {
      if n > 0 {
        TargetPathsDistinct(dirs, slugs, n - 1);
        TargetSlugs(dirs, slugs, n - 1);
        NotEarlier(slugs, n - 1);
        JoinDistinct(Targets(dirs, slugs, n - 1), slugs[..n - 1], dirs, slugs[n - 1],
                     render(index.items[n - 1], slugs[n - 1]));
      }
    }

    /** Whether the output directories are different ones. */
    predicate SeparateDirs() {
      config.outputDir.None? && config.scope == Both ==> config.globalDir != PROJECT_AGENTS_DIR
    }

    /** With pairwise different slugs every target has its own path. */
    lemma {:induction false} UniqueTargets()
      requires Distinct(Slugs()) && SeparateDirs()
      ensures DistinctPaths(AllTargets())
    {
      TargetPathsDistinct(OutputDirs(config), Slugs(), |index.items|);
    }

    /** Personas with pairwise different names that the slug index accepts have different slugs. */
    lemma {:induction false} NamesGiveUniqueTargets(files: Files)
      requires CanPlan(files) && index.DistinctNames() && SeparateDirs()
      ensures Distinct(Slugs()) && DistinctPaths(AllTargets())
    {
      index.SlugsAreUnique();
      UniqueTargets();
    }

    /** After a run that succeeded another one succeeds too. It changes files exactly when it is
        forced and two targets want different contents at one path that can be read and written. */
    lemma {:induction false} SecondRunExactly(files: Files)
      requires CanPlan(files)
      ensures var after := Applied(files, Planned(files, config.force, AllTargets()), unwritable);
        && CanPlan(after)
        && (Applied(after, Planned(after, config.force, AllTargets()), unwritable) != after <==>
              config.force && SomeContested(files, AllTargets(), unwritable))
    {
      StaysReadable(files, config.force, AllTargets(), unwritable);
      SecondRunChanges(files, config.force, AllTargets(), unwritable);
    }

    /** `run` called twice in a row: the second run leaves every file as it is unless it is forced and
        some path is contested, which pairwise different slugs exclude. */
    method RunTwice() returns (first: Result<SyncResult, PlanError>, second: Result<SyncResult, PlanError>)
      modifies this`files
      ensures first.Ok? <==> second.Ok?
      ensures first.Err? ==> files == old(files)
      ensures first.Ok? ==>
        (files == Applied(old(files), Planned(old(files), config.force, AllTargets()), unwritable) <==>
          !(config.force && SomeContested(old(files), AllTargets(), unwritable)))
      ensures Distinct(Slugs()) && SeparateDirs() ==> !SomeContested(old(files), AllTargets(), unwritable)
    {
      first := Run();
      if first.Ok? {
        SecondRunExactly(old(files));
      }
      if Distinct(Slugs()) && SeparateDirs() {
        UniqueTargets();
        NothingContested(old(files), AllTargets(), unwritable);
      }
      second := Run();
    }
  }

  lemma {:induction false} DirNext(dirs: seq<string>, j: nat, slug: string, content: string, before: seq<Target>)
    requires j < |dirs|
    ensures before + TargetsIn(dirs[..j + 1], slug, content)
      == before + TargetsIn(dirs[..j], slug, content) + [Target(slug, Path(dirs[j], slug), content)]
  {
    assert dirs[..j + 1][..j] == dirs[..j];
  }

  lemma {:induction false} UnreadableConcat(files: Files, s: seq<Target>, t: seq<Target>)
    requires !AllReadable(files, s)
    ensures !AllReadable(files, s + t)
  {
    var u :| u in s && !Readable(files, u);
    assert u in s + t;
  }

  lemma {:induction false} InDirs(dirs: seq<string>, slug: string, content: string, t: Target)
    ensures t in TargetsIn(dirs, slug, content)
      <==> t.slug == slug && t.path.slug == slug && t.path.dir in dirs && t.content == content
  {
    var all := TargetsIn(dirs, slug, content);
    if t.slug == slug && t.path.slug == slug && t.path.dir in dirs && t.content == content {
      var j :| 0 <= j < |dirs| && dirs[j] == t.path.dir;
      assert all[j] == t;
    }
  }

  lemma {:induction false} TargetsInDistinct(dirs: seq<string>, slug: string, content: string)
    requires Distinct(dirs)
    ensures DistinctPaths(TargetsIn(dirs, slug, content))
  {
  }

  ghost predicate SlugsAmong(targets: seq<Target>, slugs: seq<string>) {
    forall t :: t in targets ==> t.path.slug in slugs
  }

  lemma {:induction false} JoinDistinct(before: seq<Target>, known: seq<string>, dirs: seq<string>,
                                        slug: string, content: string)
    requires DistinctPaths(before) && SlugsAmong(before, known) && slug !in known && Distinct(dirs)
    ensures DistinctPaths(before + TargetsIn(dirs, slug, content))
  {
    TargetsInDistinct(dirs, slug, content);
    DistinctPathsConcat(before, TargetsIn(dirs, slug, content));
  }

  lemma {:induction false} NotEarlier<T(!new)>(s: seq<T>, i: nat)
    requires Distinct(s) && i < |s|
    ensures s[i] !in s[..i]
  {
  }

  lemma {:induction false} DistinctPathsConcat(s: seq<Target>, t: seq<Target>)
    requires DistinctPaths(s) && DistinctPaths(t)
    requires forall a, b :: a in s && b in t ==> a.path != b.path
    ensures DistinctPaths(s + t)
  {
    forall i, j | 0 <= i < j < |s + t| ensures (s + t)[i].path != (s + t)[j].path {
      if i < |s| <= j {
        assert s[i] in s && t[j - |s|] in t;
      }
    }
  }

  // ---- what a run does to the files --------------------------------------------------

  /** The file an entry should leave behind. */
  ghost predicate LeftBy(after: Files, before: Files, e: Entry, unwritable: set<Path>) {
    if Writes(e, unwritable) then e.target.path in after && after[e.target.path] == Text(e.target.content)
    else SameAt(after, before, e.target.path)
  }

  ghost predicate SameAt(after: Files, before: Files, p: Path) {
    (p in after <==> p in before) && (p in before ==> after[p] == before[p])
  }

  ghost predicate Touches(entries: seq<Entry>, p: Path) {
    exists e :: e in entries && e.target.path == p
  }

  ghost predicate DistinctEntries(entries: seq<Entry>) {
    forall i, j :: 0 <= i < j < |entries| ==> entries[i].target.path != entries[j].target.path
  }

  /** Paths that are not planned keep their files; a planned path holds its content if its entry
      creates or updates and the write succeeds, and keeps its file otherwise. */
  lemma {:induction false} RunFiles(files: Files, entries: seq<Entry>, unwritable: set<Path>)
    requires DistinctEntries(entries)
    ensures var after := Applied(files, entries, unwritable);
      && (forall p :: !Touches(entries, p) ==> SameAt(after, files, p))
      && (forall e :: e in entries ==> LeftBy(after, files, e, unwritable))
  {
    if entries != [] {
      var init, last := entries[..|entries| - 1], entries[|entries| - 1];
      RunFiles(files, init, unwritable);
      Snoc(entries);
      var mid, after := Applied(files, init, unwritable), Applied(files, entries, unwritable);
      assert forall p :: p != last.target.path ==> SameAt(after, mid, p);
      assert !Touches(init, last.target.path);
      assert SameAt(mid, files, last.target.path);
      forall p | !Touches(entries, p) ensures SameAt(after, files, p) {
        assert last in entries;
        assert !Touches(init, p);
      }
      forall e | e in entries ensures LeftBy(after, files, e, unwritable) {
        if e in init {
          assert LeftBy(mid, files, e, unwritable);
        } else {
          assert e == last;
        }
      }
    }
  }

  /** Never silently: without force, no file that existed before the run is changed by it. */
  lemma {:induction false} ExistingFilesKept(files: Files, targets: seq<Target>, unwritable: set<Path>, p: Path)
    requires DistinctPaths(targets) && p in files
    ensures SameAt(Applied(files, Planned(files, false, targets), unwritable), files, p)
  {
    var entries := Planned(files, false, targets);
    RunFiles(files, entries, unwritable);
    if Touches(entries, p) {
      var e :| e in entries && e.target.path == p;
      assert LeftBy(Applied(files, entries, unwritable), files, e, unwritable);
      assert e.action != Create && e.action != Update;
    }
  }

  /** The plan made after a run, target by target: what was written is skipped, and everything
      else is decided as before. */
  lemma {:induction false} SecondPlan(files: Files, force: bool, targets: seq<Target>, unwritable: set<Path>, i: nat)
    requires DistinctPaths(targets) && i < |targets|
    ensures var entries := Planned(files, force, targets);
      var after := Applied(files, entries, unwritable);
      Planned(after, force, targets)[i].action
        == if Writes(entries[i], unwritable) then Skip else entries[i].action
  {
    var entries := Planned(files, force, targets);
    var after := Applied(files, entries, unwritable);
    RunFiles(files, entries, unwritable);
    assert entries[i] in entries && LeftBy(after, files, entries[i], unwritable);
  }

  /** Running twice is running once: without write errors the second plan only skips what was not
      a conflict, and leaves every file alone. */
  lemma {:induction false} SecondRunIdle(files: Files, force: bool, targets: seq<Target>)
    requires DistinctPaths(targets)
    ensures var entries := Planned(files, force, targets);
      var after := Applied(files, entries, {});
      var again := Planned(after, force, targets);
      && (forall i :: 0 <= i < |targets| ==>
            again[i].action == if entries[i].action == Conflict then Conflict else Skip)
      && Applied(after, again, {}) == after
  {
    var entries := Planned(files, force, targets);
    var after := Applied(files, entries, {});
    var again := Planned(after, force, targets);
    forall i | 0 <= i < |targets|
      ensures again[i].action == if entries[i].action == Conflict then Conflict else Skip
    {
      SecondPlan(files, force, targets, {}, i);
    }
    IdleRun(after, again, {});
  }

  // ---- running twice, whatever the targets ------------------------------------------

  /** What the last entry that writes a path writes to it. */
  function LastWrite(entries: seq<Entry>, unwritable: set<Path>, p: Path): Option<string> {
    if entries == [] then None
    else
      var e := entries[|entries| - 1];
      if Writes(e, unwritable) && e.target.path == p then Some(e.target.content)
      else LastWrite(entries[..|entries| - 1], unwritable, p)
  }

  lemma {:induction false} AppliedAt(files: Files, entries: seq<Entry>, unwritable: set<Path>, p: Path)
    ensures var after, w := Applied(files, entries, unwritable), LastWrite(entries, unwritable, p);
      if w.Some? then p in after && after[p] == Text(w.value) else SameAt(after, files, p)
  {
    if entries != [] {
      AppliedAt(files, entries[..|entries| - 1], unwritable, p);
    }
  }

  ghost predicate WritesAt(entries: seq<Entry>, unwritable: set<Path>, p: Path, i: nat) {
    i < |entries| && Writes(entries[i], unwritable) && entries[i].target.path == p
  }

  lemma {:induction false} LastWriteFrom(entries: seq<Entry>, unwritable: set<Path>, p: Path) returns (i: nat)
    requires LastWrite(entries, unwritable, p).Some?
    ensures WritesAt(entries, unwritable, p, i) && entries[i].target.content == LastWrite(entries, unwritable, p).value
  {
    i := |entries| - 1;
    if !(Writes(entries[i], unwritable) && entries[i].target.path == p) {
      i := LastWriteFrom(entries[..i], unwritable, p);
    }
  }

  lemma {:induction false} LastWriteExists(entries: seq<Entry>, unwritable: set<Path>, p: Path, i: nat)
    requires WritesAt(entries, unwritable, p, i)
    ensures LastWrite(entries, unwritable, p).Some?
  {
    if i < |entries| - 1 {
      LastWriteExists(entries[..|entries| - 1], unwritable, p, i);
    }
  }

  /** Two targets want different contents at one path that can be read, or is absent, and written. */
  ghost predicate Contested(files: Files, targets: seq<Target>, unwritable: set<Path>, i: nat, j: nat) {
    && i < |targets| && j < |targets| && targets[i].path == targets[j].path
    && targets[i].content != targets[j].content
    && targets[i].path !in unwritable && (targets[i].path in files ==> files[targets[i].path].Text?)
  }

  ghost predicate SomeContested(files: Files, targets: seq<Target>, unwritable: set<Path>) {
    exists i: nat, j: nat :: Contested(files, targets, unwritable, i, j)
  }

  lemma {:induction false} NothingContested(files: Files, targets: seq<Target>, unwritable: set<Path>)
    requires DistinctPaths(targets)
    ensures !SomeContested(files, targets, unwritable)
  {
  }

  /** A run leaves every planned file readable. */
  lemma {:induction false} StaysReadable(files: Files, force: bool, targets: seq<Target>, unwritable: set<Path>)
    requires AllReadable(files, targets)
    ensures AllReadable(Applied(files, Planned(files, force, targets), unwritable), targets)
  {
    forall t | t in targets ensures Readable(Applied(files, Planned(files, force, targets), unwritable), t) {
      AppliedAt(files, Planned(files, force, targets), unwritable, t.path);
      assert Readable(files, t);
    }
  }

  /** A target that the second run writes is contested. */
  lemma {:induction false} RewrittenIsContested(files: Files, force: bool, targets: seq<Target>, unwritable: set<Path>,
                                                i: nat)
    requires i < |targets|
    requires var after := Applied(files, Planned(files, force, targets), unwritable);
      Writes(Planned(after, force, targets)[i], unwritable)
    ensures force && SomeContested(files, targets, unwritable)
  {
    var entries, p := Planned(files, force, targets), targets[i].path;
    AppliedAt(files, entries, unwritable, p);
    if LastWrite(entries, unwritable, p).Some? {
      var j := LastWriteFrom(entries, unwritable, p);
      assert Contested(files, targets, unwritable, i, j);
    } else if Writes(entries[i], unwritable) {
      LastWriteExists(entries, unwritable, p, i);
    }
  }

  /** The file at a contested path after a forced run, and the target that finds it different. */
  lemma {:induction false} ContestedIsRewritten(files: Files, targets: seq<Target>, unwritable: set<Path>,
                                                i: nat, j: nat)
      returns (k: nat)
    requires Contested(files, targets, unwritable, i, j)
    ensures var after, p := Applied(files, Planned(files, true, targets), unwritable), targets[i].path;
      && p in after && after[p].Text? && k < |targets|
      && WritesAt(Planned(after, true, targets), unwritable, p, k)
  {
    var entries, p := Planned(files, true, targets), targets[i].path;
    var after := Applied(files, entries, unwritable);
    AppliedAt(files, entries, unwritable, p);
    if p !in files {
      LastWriteExists(entries, unwritable, p, i);
    }
    k := if after[p].content != targets[i].content then i else j;
  }

  /** Running again changes files exactly when it is forced and some path is contested. */
  lemma {:induction false} SecondRunChanges(files: Files, force: bool, targets: seq<Target>, unwritable: set<Path>)
    ensures var after := Applied(files, Planned(files, force, targets), unwritable);
      Applied(after, Planned(after, force, targets), unwritable) != after <==>
        force && SomeContested(files, targets, unwritable)
  {
    var after := Applied(files, Planned(files, force, targets), unwritable);
    var again := Planned(after, force, targets);
    if force && SomeContested(files, targets, unwritable) {
      var i: nat, j: nat :| Contested(files, targets, unwritable, i, j);
      var k := ContestedIsRewritten(files, targets, unwritable, i, j);
      RewriteChanges(after, targets, unwritable, targets[i].path, k);
    } else {
      forall i | 0 <= i < |targets| ensures !Writes(again[i], unwritable) {
        if Writes(again[i], unwritable) { RewrittenIsContested(files, force, targets, unwritable, i); }
      }
      IdleRun(after, again, unwritable);
    }
  }

  /** A forced run that writes a path which holds a text leaves another text there. */
  lemma {:induction false} RewriteChanges(files: Files, targets: seq<Target>, unwritable: set<Path>, p: Path, k: nat)
    requires p in files && files[p].Text? && WritesAt(Planned(files, true, targets), unwritable, p, k)
    ensures Applied(files, Planned(files, true, targets), unwritable) != files
  {
    var entries := Planned(files, true, targets);
    LastWriteExists(entries, unwritable, p, k);
    var i := LastWriteFrom(entries, unwritable, p);
    AppliedAt(files, entries, unwritable, p);
    assert entries[i].action == Update;
  }

  lemma {:induction false} IdleRun(files: Files, entries: seq<Entry>, unwritable: set<Path>)
    requires forall i :: 0 <= i < |entries| ==> !Writes(entries[i], unwritable)
    ensures Applied(files, entries, unwritable) == files
  {
    if entries != [] {
      IdleRun(files, entries[..|entries| - 1], unwritable);
    }
  }

  // ---- what a run reports ------------------------------------------------------------

  function List(r: SyncResult, action: Action): seq<string> {
    match action
    case Create => r.created
    case Update => r.updated
    case Skip => r.skipped
    case Conflict => r.conflicts
  }

  /** The action of a slug's first entry that does not fail. */
  function FirstAction(entries: seq<Entry>, unwritable: set<Path>, slug: string): Option<Action> {
    if entries == [] then None
    else
      var earlier := FirstAction(entries[..|entries| - 1], unwritable, slug);
      var e := entries[|entries| - 1];
      if earlier.None? && e.target.slug == slug && !Fails(e, unwritable) then Some(e.action) else earlier
  }

  /** A slug is listed under the action of its first entry that does not fail, once, and nowhere
      else; in particular each slug is in at most one list. */
  lemma {:induction false} ListedExactly(entries: seq<Entry>, unwritable: set<Path>, slug: string, action: Action)
    ensures var (r, seen) := Recorded(entries, unwritable);
      && Count(List(r, action), slug) == (if FirstAction(entries, unwritable, slug) == Some(action) then 1 else 0)
      && (slug in seen <==> FirstAction(entries, unwritable, slug).Some?)
  {
    if entries != [] {
      var init, e := entries[..|entries| - 1], entries[|entries| - 1];
      ListedExactly(init, unwritable, slug, action);
      var (r, seen) := Recorded(init, unwritable);
      if !Fails(e, unwritable) && e.target.slug !in seen {
        EnterCounts(r, e.action, e.target.slug, action, slug);
        ListedExactly(init, unwritable, e.target.slug, e.action);
      }
    }
  }

  lemma {:induction false} EnterCounts(r: SyncResult, action: Action, slug: string, other: Action, s: string)
    ensures Count(List(Enter(r, action, slug), other), s)
      == Count(List(r, other), s) + if other == action && s == slug then 1 else 0
  {
    CountAppend(List(r, action), [slug], s);
    assert Count([slug], s) == if s == slug then 1 else 0;
  }

  /** Without write errors every planned slug is listed exactly once over the four lists. */
  lemma {:induction false} EverySlugListedOnce(entries: seq<Entry>, slug: string)
    requires exists e :: e in entries && e.target.slug == slug
    ensures var r := Recorded(entries, {}).0;
      Count(r.created, slug) + Count(r.updated, slug) + Count(r.skipped, slug) + Count(r.conflicts, slug) == 1
  {
    FirstActionExists(entries, slug);
    assert FirstAction(entries, {}, slug).value in {Create, Update, Skip, Conflict};
    ListedExactly(entries, {}, slug, Create);
    ListedExactly(entries, {}, slug, Update);
    ListedExactly(entries, {}, slug, Skip);
    ListedExactly(entries, {}, slug, Conflict);
  }

  lemma {:induction false} FirstActionExists(entries: seq<Entry>, slug: string)
    requires exists e :: e in entries && e.target.slug == slug
    ensures FirstAction(entries, {}, slug).Some?
  {
    var e :| e in entries && e.target.slug == slug;
    if e in entries[..|entries| - 1] {
      FirstActionExists(entries[..|entries| - 1], slug);
    }
  }

  /** The error list names exactly the paths whose writes fail, in order. */
  lemma {:induction false} ErrorsExactly(entries: seq<Entry>, unwritable: set<Path>)
    ensures Recorded(entries, unwritable).0.errors == FailedPaths(entries, unwritable)
  {
    if entries != [] {
      ErrorsExactly(entries[..|entries| - 1], unwritable);
    }
  }

  function FailedPaths(entries: seq<Entry>, unwritable: set<Path>): seq<Path> {
    if entries == [] then []
    else
      var last := entries[|entries| - 1];
      FailedPaths(entries[..|entries| - 1], unwritable) + if Fails(last, unwritable) then [last.target.path] else []
  }

  // ---- the report in terms of the files ------------------------------------------------

  /** The run has to write the target's file: it is absent, or holds another text and is forced. */
  predicate ToWrite(files: Files, force: bool, t: Target) {
    t.path !in files || (force && Differs(files, t))
  }

  /** The target's write, if it needs one, fails. */
  predicate Lost(files: Files, force: bool, unwritable: set<Path>, t: Target) {
    ToWrite(files, force, t) && t.path in unwritable
  }

  /** The target is the first of its slug that does not fail. */
  ghost predicate Decides(files: Files, force: bool, targets: seq<Target>, unwritable: set<Path>, slug: string,
                          i: nat)
  {
    && i < |targets| && targets[i].slug == slug && !Lost(files, force, unwritable, targets[i])
    && forall j :: 0 <= j < i && targets[j].slug == slug ==> Lost(files, force, unwritable, targets[j])
  }

  /** A slug is listed as its deciding target's file says, once, and in no other list: as created for
      an absent file, as skipped for the wanted text, as updated for another text under force, and as a
      conflict for another text without force or an unreadable file. A slug without a deciding target
      is not listed. */
  lemma {:induction false} ReportedExactly(files: Files, force: bool, targets: seq<Target>, unwritable: set<Path>,
                                           slug: string, i: nat)
    ensures var r := Recorded(Planned(files, force, targets), unwritable).0;
      && (Decides(files, force, targets, unwritable, slug, i) ==>
            && Count(r.created, slug) == (if targets[i].path !in files then 1 else 0)
            && Count(r.skipped, slug) == (if Current(files, targets[i]) then 1 else 0)
            && Count(r.updated, slug) == (if force && Differs(files, targets[i]) then 1 else 0)
            && Count(r.conflicts, slug)
                 == (if targets[i].path in files && !Current(files, targets[i])
                        && !(force && Differs(files, targets[i])) then 1 else 0))
      && ((forall j: nat :: !Decides(files, force, targets, unwritable, slug, j)) ==>
            slug !in r.created && slug !in r.skipped && slug !in r.updated && slug !in r.conflicts)
  {
    var entries := Planned(files, force, targets);
    var r := Recorded(entries, unwritable).0;
    ListedExactly(entries, unwritable, slug, Create);
    ListedExactly(entries, unwritable, slug, Update);
    ListedExactly(entries, unwritable, slug, Skip);
    ListedExactly(entries, unwritable, slug, Conflict);
    if Decides(files, force, targets, unwritable, slug, i) {
      DecidingAction(files, force, targets, unwritable, slug, i);
      PlannedExactly(files, force, targets, i);
    } else if forall j: nat :: !Decides(files, force, targets, unwritable, slug, j) {
      NothingDecides(files, force, targets, unwritable, slug);
      CountPositive(r.created, slug);
      CountPositive(r.skipped, slug);
      CountPositive(r.updated, slug);
      CountPositive(r.conflicts, slug);
    }
  }

  lemma {:induction false} PlannedTake(files: Files, force: bool, targets: seq<Target>, n: nat)
    requires n <= |targets|
    ensures Planned(files, force, targets)[..n] == Planned(files, force, targets[..n])
  {
  }

  lemma {:induction false} DecidingAction(files: Files, force: bool, targets: seq<Target>, unwritable: set<Path>,
                                          slug: string, i: nat)
    requires Decides(files, force, targets, unwritable, slug, i)
    ensures var entries := Planned(files, force, targets);
      FirstAction(entries, unwritable, slug) == Some(entries[i].action)
    decreases |targets|
  {
    var n := |targets| - 1;
    PlannedTake(files, force, targets, n);
    if i < n {
      assert Decides(files, force, targets[..n], unwritable, slug, i);
      DecidingAction(files, force, targets[..n], unwritable, slug, i);
    } else {
      forall j: nat ensures !Decides(files, force, targets[..n], unwritable, slug, j) {
      }
      NothingDecides(files, force, targets[..n], unwritable, slug);
    }
  }

  lemma {:induction false} NothingDecides(files: Files, force: bool, targets: seq<Target>, unwritable: set<Path>,
                                          slug: string)
    requires forall j: nat :: !Decides(files, force, targets, unwritable, slug, j)
    ensures FirstAction(Planned(files, force, targets), unwritable, slug).None?
  {
    if targets != [] {
      var n := |targets| - 1;
      PlannedTake(files, force, targets, n);
      forall j: nat ensures !Decides(files, force, targets[..n], unwritable, slug, j) {
        assert !Decides(files, force, targets, unwritable, slug, j);
      }
      NothingDecides(files, force, targets[..n], unwritable, slug);
      if FirstAction(Planned(files, force, targets), unwritable, slug).Some? {
        NoneBefore(files, force, targets[..n], unwritable, slug);
        assert Decides(files, force, targets, unwritable, slug, n);
      }
    }
  }

  lemma {:induction false} NoneBefore(files: Files, force: bool, targets: seq<Target>, unwritable: set<Path>,
                                      slug: string)
    requires FirstAction(Planned(files, force, targets), unwritable, slug).None?
    ensures forall j :: 0 <= j < |targets| && targets[j].slug == slug ==> Lost(files, force, unwritable, targets[j])
  {
    if targets != [] {
      var n := |targets| - 1;
      PlannedTake(files, force, targets, n);
      NoneBefore(files, force, targets[..n], unwritable, slug);
    }
  }

  /** Without force a slug is a conflict exactly if the first of its targets that does not fail meets
      another text or a file that cannot be read. */
  lemma {:induction false} ConflictsExactly(files: Files, targets: seq<Target>, unwritable: set<Path>, slug: string)
    ensures var r := Recorded(Planned(files, false, targets), unwritable).0;
      slug in r.conflicts <==>
        exists i: nat :: Decides(files, false, targets, unwritable, slug, i)
                         && targets[i].path in files && files[targets[i].path] != Text(targets[i].content)
  {
    var r := Recorded(Planned(files, false, targets), unwritable).0;
    CountPositive(r.conflicts, slug);
    if i: nat :| Decides(files, false, targets, unwritable, slug, i) {
      ReportedExactly(files, false, targets, unwritable, slug, i);
      forall j: nat | Decides(files, false, targets, unwritable, slug, j) ensures i == j {
        OneDecides(files, false, targets, unwritable, slug, i, j);
      }
    } else {
      ReportedExactly(files, false, targets, unwritable, slug, 0);
    }
  }

  lemma {:induction false} OneDecides(files: Files, force: bool, targets: seq<Target>, unwritable: set<Path>,
                                      slug: string, i: nat, j: nat)
    requires Decides(files, force, targets, unwritable, slug, i) && Decides(files, force, targets, unwritable, slug, j)
    ensures i == j
  {
  }

  /** The file a run leaves at a target's own path: the wanted text if the file was absent, or held
      another text under force, and can be written; otherwise what was there. */
  lemma {:induction false} RunLeaves(files: Files, force: bool, targets: seq<Target>, unwritable: set<Path>, i: nat)
    requires DistinctPaths(targets) && i < |targets|
    ensures var t, after := targets[i], Applied(files, Planned(files, force, targets), unwritable);
      if ToWrite(files, force, t) && t.path !in unwritable then Current(after, t) else SameAt(after, files, t.path)
  {
    var entries := Planned(files, force, targets);
    RunFiles(files, entries, unwritable);
    PlannedExactly(files, force, targets, i);
    assert entries[i] in entries;
  }
}
