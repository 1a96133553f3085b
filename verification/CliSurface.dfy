/** `integrity/check_cli_surface.py`: comparing the committed CLI contract with the actual surface. */
module CliSurface {
  import opened Collections
  import opened Sorting

  type Name = string

  datatype Param = Param(opts: seq<string>, required: bool)

  /** A command or group; the dicts of the source are lists of entries with distinct names. */
  datatype Command = Command(params: seq<(Name, Param)>, commands: seq<(Name, Command)>)

  datatype ErrorKind = CommandRemoved | ParamRemoved(param: Name) | ParamChanged(param: Name)
  datatype Error = Error(path: seq<Name>, kind: ErrorKind)

  datatype AdditionKind = NewCommand | NewParam(param: Name)
  datatype Addition = Addition(path: seq<Name>, kind: AdditionKind)

  // ---- dictionaries ------------------------------------------------------------

  /** `entries.get(name)` */
  function Lookup<T>(entries: seq<(Name, T)>, name: Name): Option<T> {
    if entries == [] then None
    else if entries[0].0 == name then Some(entries[0].1)
    else Lookup(entries[1..], name)
  }

  ghost predicate DistinctNames<T>(entries: seq<(Name, T)>) {
    entries != [] ==> Lookup(entries[1..], entries[0].0) == None && DistinctNames(entries[1..])
  }

  /** Entries of part are entries of whole. */
  ghost predicate PartOf<T(!new)>(part: seq<(Name, T)>, whole: seq<(Name, T)>) {
    forall n :: Lookup(part, n).Some? ==> Lookup(whole, n) == Lookup(part, n)
  }

  function ByName<T>(): ((Name, T)) -> Key {
    (e: (Name, T)) => Text(e.0)
  }

  /** `sorted(entries.items())` */
  function SortedByName<T(!new)>(entries: seq<(Name, T)>): seq<(Name, T)> {
    StableSort(entries, ByName())
  }

  lemma {:induction false} LookupSnoc<T(!new)>(entries: seq<(Name, T)>, e: (Name, T))
    ensures forall n ::
      Lookup(entries + [e], n) == if Lookup(entries, n).None? && n == e.0 then Some(e.1) else Lookup(entries, n)
    ensures DistinctNames(entries + [e]) <==> DistinctNames(entries) && Lookup(entries, e.0) == None
  {
    if entries != [] {
      LookupSnoc(entries[1..], e);
      assert (entries + [e])[1..] == entries[1..] + [e];
    }
  }

  lemma {:induction false} InsertLookup<T(!new)>(entries: seq<(Name, T)>, e: (Name, T))
    requires DistinctNames(entries) && Lookup(entries, e.0) == None
    ensures DistinctNames(Insert(entries, e, ByName()))
    ensures forall n :: Lookup(Insert(entries, e, ByName()), n) == if n == e.0 then Some(e.1) else Lookup(entries, n)
  {
    LookupSnoc(entries, e);
    if entries != [] {
      var init, last := entries[..|entries| - 1], entries[|entries| - 1];
      Snoc(entries);
      LookupSnoc(init, last);
      InsertLookup(init, e);
      LookupSnoc(Insert(init, e, ByName()), last);
    }
  }

  /** Sorting a dict's items keeps its entries. */
  lemma {:induction false} SortedLookup<T(!new)>(entries: seq<(Name, T)>)
    requires DistinctNames(entries)
    ensures DistinctNames(SortedByName(entries))
    ensures forall n :: Lookup(SortedByName(entries), n) == Lookup(entries, n)
  {
    if entries != [] {
      var init, last := entries[..|entries| - 1], entries[|entries| - 1];
      Snoc(entries);
      LookupSnoc(init, last);
      SortedLookup(init);
      InsertLookup(SortedByName(init), last);
    }
  }

  // ---- command trees -----------------------------------------------------------

  function Max(a: nat, b: nat): nat { if a < b then b else a }

  function Depth(c: Command): nat {
    DepthOfAll(c.commands)
  }

  function DepthOfAll(entries: seq<(Name, Command)>): nat {
    if entries == [] then 0
    else
      assert entries[0].1 < entries[0];
      Max(1 + Depth(entries[0].1), DepthOfAll(entries[1..]))
  }

  lemma {:induction false} ChildDepth(entries: seq<(Name, Command)>, name: Name)
    requires Lookup(entries, name).Some?
    ensures Depth(Lookup(entries, name).value) < DepthOfAll(entries)
  {
    if entries[0].0 != name { ChildDepth(entries[1..], name); }
  }

  /** Names are distinct at every level, as dict keys are. */
  ghost predicate WellFormed(c: Command)
    decreases Depth(c)
  {
    && DistinctNames(c.params) && DistinctNames(c.commands)
    && forall n :: Lookup(c.commands, n).Some? ==>
         (ChildDepth(c.commands, n); WellFormed(Lookup(c.commands, n).value))
  }

  // ---- the comparison ----------------------------------------------------------

  predicate SameParam(a: Param, b: Param) {
    multiset(a.opts) == multiset(b.opts) && a.required == b.required
  }

  /** The error, if any, for one option of the contract. */
  function ParamError(expected: (Name, Param), actual: seq<(Name, Param)>, full: seq<Name>): seq<Error> {
    match Lookup(actual, expected.0)
    case None => [Error(full, ParamRemoved(expected.0))]
    case Some(p) => if SameParam(p, expected.1) then [] else [Error(full, ParamChanged(expected.0))]
  }

  function ParamErrors(expected: seq<(Name, Param)>, actual: seq<(Name, Param)>, full: seq<Name>): seq<Error> {
    if expected == [] then []
    else ParamError(expected[0], actual, full) + ParamErrors(expected[1..], actual, full)
  }

  function ParamAdditions(expected: seq<(Name, Param)>, actual: seq<(Name, Param)>, full: seq<Name>): seq<Addition> {
    if actual == [] then []
    else
      (if Lookup(expected, actual[0].0) == None then [Addition(full, NewParam(actual[0].0))] else [])
      + ParamAdditions(expected, actual[1..], full)
  }

  /** Everything appended to errors by one call on c (contract) and s (surface). */
  function Errors(c: Command, s: Command, path: seq<Name>): seq<Error>
    requires WellFormed(c) && WellFormed(s)
    decreases Depth(c), 2, 0
  {
    SortedLookup(c.commands);
    SortedLookup(s.commands);
    ContractErrors(c, s, SortedByName(c.commands), path) + SurfaceErrors(c, s, SortedByName(s.commands), path)
  }

  /** The errors of the first loop's body for one contract command. */
  function RequiredErrors(c: Command, s: Command, name: Name, path: seq<Name>): seq<Error>
    requires WellFormed(c) && WellFormed(s) && Lookup(c.commands, name).Some?
    decreases Depth(c), 0, 1
  {
    match Lookup(s.commands, name)
    case None => [Error(path + [name], CommandRemoved)]
    case Some(actual) =>
      ParamErrors(Lookup(c.commands, name).value.params, actual.params, path + [name]) + SharedErrors(c, s, name, path)
  }

  /** The errors of descending into name, where both trees have it. */
  function SharedErrors(c: Command, s: Command, name: Name, path: seq<Name>): seq<Error>
    requires WellFormed(c) && WellFormed(s)
    decreases Depth(c), 0, 0
  {
    if Lookup(c.commands, name).None? || Lookup(s.commands, name).None? then []
    else
      var expected, actual := Lookup(c.commands, name).value, Lookup(s.commands, name).value;
      ChildDepth(c.commands, name);
      if expected.commands != [] || actual.commands != [] then Errors(expected, actual, path + [name]) else []
  }

  /** The first loop, over the contract's commands. */
  function ContractErrors(c: Command, s: Command, rest: seq<(Name, Command)>, path: seq<Name>): seq<Error>
    requires WellFormed(c) && WellFormed(s) && DistinctNames(rest) && PartOf(rest, c.commands)
    decreases Depth(c), 1, |rest|
  {
    if rest == [] then []
    else
      assert Lookup(rest, rest[0].0) == Some(rest[0].1);
      RequiredErrors(c, s, rest[0].0, path) + ContractErrors(c, s, rest[1..], path)
  }

  /** The second loop, over the surface's commands. */
  function SurfaceErrors(c: Command, s: Command, rest: seq<(Name, Command)>, path: seq<Name>): seq<Error>
    requires WellFormed(c) && WellFormed(s) && DistinctNames(rest) && PartOf(rest, s.commands)
    decreases Depth(c), 1, |rest|
  {
    if rest == [] then [] else SharedErrors(c, s, rest[0].0, path) + SurfaceErrors(c, s, rest[1..], path)
  }

  /** Everything appended to additions by the same call. */
  function Additions(c: Command, s: Command, path: seq<Name>): seq<Addition>
    requires WellFormed(c) && WellFormed(s)
    decreases Depth(c), 2, 0
  {
    SortedLookup(c.commands);
    SortedLookup(s.commands);
    ContractAdditions(c, s, SortedByName(c.commands), path) + SurfaceAdditions(c, s, SortedByName(s.commands), path)
  }

  function SharedAdditions(c: Command, s: Command, name: Name, path: seq<Name>): seq<Addition>
    requires WellFormed(c) && WellFormed(s)
    decreases Depth(c), 0, 0
  {
    if Lookup(c.commands, name).None? || Lookup(s.commands, name).None? then []
    else
      var expected, actual := Lookup(c.commands, name).value, Lookup(s.commands, name).value;
      ChildDepth(c.commands, name);
      if expected.commands != [] || actual.commands != [] then Additions(expected, actual, path + [name]) else []
  }

  /** The additions of the second loop's body for one surface command. */
  function PresentAdditions(c: Command, s: Command, name: Name, path: seq<Name>): seq<Addition>
    requires WellFormed(c) && WellFormed(s) && Lookup(s.commands, name).Some?
    decreases Depth(c), 0, 1
  {
    match Lookup(c.commands, name)
    case None => [Addition(path + [name], NewCommand)]
    case Some(expected) =>
      ParamAdditions(expected.params, Lookup(s.commands, name).value.params, path + [name]) +
          SharedAdditions(c, s, name, path)
  }

  function ContractAdditions(c: Command, s: Command, rest: seq<(Name, Command)>, path: seq<Name>): seq<Addition>
    requires WellFormed(c) && WellFormed(s) && DistinctNames(rest) && PartOf(rest, c.commands)
    decreases Depth(c), 1, |rest|
  {
    if rest == [] then [] else SharedAdditions(c, s, rest[0].0, path) + ContractAdditions(c, s, rest[1..], path)
  }

  function SurfaceAdditions(c: Command, s: Command, rest: seq<(Name, Command)>, path: seq<Name>): seq<Addition>
    requires WellFormed(c) && WellFormed(s) && DistinctNames(rest) && PartOf(rest, s.commands)
    decreases Depth(c), 1, |rest|
  {
    if rest == [] then []
    else
      assert Lookup(rest, rest[0].0) == Some(rest[0].1);
      PresentAdditions(c, s, rest[0].0, path) + SurfaceAdditions(c, s, rest[1..], path)
  }

  /** The loop over the contract's options of one command. */
  method CompareParams(expected: seq<(Name, Param)>, actual: seq<(Name, Param)>, full: seq<Name>, errors: seq<Error>)
    returns (errors': seq<Error>)
    ensures errors' == errors + ParamErrors(expected, actual, full)
  {
    errors' := errors;
    var rest := expected;
    while rest != []
      invariant errors' + ParamErrors(rest, actual, full) == errors + ParamErrors(expected, actual, full)
      decreases |rest|
    {
      var (pname, expectedParam) := rest[0];
      ghost var before := errors';
      match Lookup(actual, pname) {
        case None =>
          errors' := errors' + [Error(full, ParamRemoved(pname))];
        case Some(actualParam) =>
          if !SameParam(actualParam, expectedParam) {
            errors' := errors' + [Error(full, ParamChanged(pname))];
          }
      }
      rest := rest[1..];
      ConcatAssociative(before, errors'[|before|..], ParamErrors(rest, actual, full));
    }
  }

  method NewParams(expected: seq<(Name, Param)>, actual: seq<(Name, Param)>, full: seq<Name>, additions: seq<Addition>)
    returns (additions': seq<Addition>)
    ensures additions' == additions + ParamAdditions(expected, actual, full)
  {
    additions' := additions;
    var rest := actual;
    while rest != []
      invariant additions' + ParamAdditions(expected, rest, full) == additions + ParamAdditions(expected, actual, full)
      decreases |rest|
    {
      ghost var before := additions';
      if Lookup(expected, rest[0].0) == None {
        additions' := additions' + [Addition(full, NewParam(rest[0].0))];
      }
      rest := rest[1..];
      ConcatAssociative(before, additions'[|before|..], ParamAdditions(expected, rest, full));
    }
  }

  /** `_compare_commands`: two loops, both of which descend into shared commands. */
  method CompareCommands(c: Command, s: Command, path: seq<Name>, errors: seq<Error>, additions: seq<Addition>)
    returns (errors': seq<Error>, additions': seq<Addition>)
    requires WellFormed(c) && WellFormed(s)
    ensures errors' == errors + Errors(c, s, path)
    ensures additions' == additions + Additions(c, s, path)
    decreases Depth(c), 2
  {
    SortedLookup(c.commands);
    SortedLookup(s.commands);
    errors', additions' := CompareContract(c, s, path, errors, additions);
    errors', additions' := CompareActual(c, s, path, errors', additions');
    ConcatAssociative(errors, ContractErrors(c, s, SortedByName(c.commands), path),
        SurfaceErrors(c, s, SortedByName(s.commands), path));
    ConcatAssociative(additions, ContractAdditions(c, s, SortedByName(c.commands), path),
        SurfaceAdditions(c, s, SortedByName(s.commands), path));
  }

  /** The first loop. */
  method CompareContract(c: Command, s: Command, path: seq<Name>, errors: seq<Error>, additions: seq<Addition>)
    returns (errors': seq<Error>, additions': seq<Addition>)
    requires WellFormed(c) && WellFormed(s) && DistinctNames(SortedByName(c.commands)) &&
        PartOf(SortedByName(c.commands), c.commands)
    ensures errors' == errors + ContractErrors(c, s, SortedByName(c.commands), path)
    ensures additions' == additions + ContractAdditions(c, s, SortedByName(c.commands), path)
    decreases Depth(c), 1
  {
    errors', additions' := errors, additions;
    var rest := SortedByName(c.commands);
    while rest != []
      invariant DistinctNames(rest) && PartOf(rest, c.commands)
      invariant errors' + ContractErrors(c, s, rest, path) ==
          errors + ContractErrors(c, s, SortedByName(c.commands), path)
      invariant additions' + ContractAdditions(c, s, rest, path) ==
          additions + ContractAdditions(c, s, SortedByName(c.commands), path)
      decreases |rest|
    {
      var name := rest[0].0;
      assert Lookup(rest, name) == Some(rest[0].1);
      ConcatAssociative(errors', RequiredErrors(c, s, name, path), ContractErrors(c, s, rest[1..], path));
      ConcatAssociative(additions', SharedAdditions(c, s, name, path), ContractAdditions(c, s, rest[1..], path));
      errors', additions' := CompareRequired(c, s, name, path, errors', additions');
      rest := rest[1..];
    }
    assert errors' + [] == errors' && additions' + [] == additions';
  }

  method CompareRequired(c: Command, s: Command, name: Name, path: seq<Name>, errors: seq<Error>,
                         additions: seq<Addition>)
    returns (errors': seq<Error>, additions': seq<Addition>)
    requires WellFormed(c) && WellFormed(s) && Lookup(c.commands, name).Some?
    ensures errors' == errors + RequiredErrors(c, s, name, path)
    ensures additions' == additions + SharedAdditions(c, s, name, path)
    decreases Depth(c), 0
  {
    var expected := Lookup(c.commands, name).value;
    match Lookup(s.commands, name) {
      case None =>
        errors' := errors + [Error(path + [name], CommandRemoved)];
        additions' := additions;
      case Some(actual) =>
        ChildDepth(c.commands, name);
        var params := CompareParams(expected.params, actual.params, path + [name], errors);
        errors', additions' := params, additions;
        if expected.commands != [] || actual.commands != [] {
          errors', additions' := CompareCommands(expected, actual, path + [name], params, additions);
        }
        ConcatAssociative(errors, ParamErrors(expected.params, actual.params, path + [name]),
            SharedErrors(c, s, name, path));
    }
  }

  /** The second loop. */
  method CompareActual(c: Command, s: Command, path: seq<Name>, errors: seq<Error>, additions: seq<Addition>)
    returns (errors': seq<Error>, additions': seq<Addition>)
    requires WellFormed(c) && WellFormed(s) && DistinctNames(SortedByName(s.commands)) &&
        PartOf(SortedByName(s.commands), s.commands)
    ensures errors' == errors + SurfaceErrors(c, s, SortedByName(s.commands), path)
    ensures additions' == additions + SurfaceAdditions(c, s, SortedByName(s.commands), path)
    decreases Depth(c), 1
  {
    errors', additions' := errors, additions;
    var rest := SortedByName(s.commands);
    while rest != []
      invariant DistinctNames(rest) && PartOf(rest, s.commands)
      invariant errors' + SurfaceErrors(c, s, rest, path) ==
          errors + SurfaceErrors(c, s, SortedByName(s.commands), path)
      invariant additions' + SurfaceAdditions(c, s, rest, path) ==
          additions + SurfaceAdditions(c, s, SortedByName(s.commands), path)
      decreases |rest|
    {
      var name := rest[0].0;
      assert Lookup(rest, name) == Some(rest[0].1);
      ConcatAssociative(errors', SharedErrors(c, s, name, path), SurfaceErrors(c, s, rest[1..], path));
      ConcatAssociative(additions', PresentAdditions(c, s, name, path), SurfaceAdditions(c, s, rest[1..], path));
      errors', additions' := ComparePresent(c, s, name, path, errors', additions');
      rest := rest[1..];
    }
    assert errors' + [] == errors' && additions' + [] == additions';
  }

  method ComparePresent(c: Command, s: Command, name: Name, path: seq<Name>, errors: seq<Error>,
                        additions: seq<Addition>)
    returns (errors': seq<Error>, additions': seq<Addition>)
    requires WellFormed(c) && WellFormed(s) && Lookup(s.commands, name).Some?
    ensures errors' == errors + SharedErrors(c, s, name, path)
    ensures additions' == additions + PresentAdditions(c, s, name, path)
    decreases Depth(c), 0
  {
    var actual := Lookup(s.commands, name).value;
    match Lookup(c.commands, name) {
      case None =>
        errors' := errors;
        additions' := additions + [Addition(path + [name], NewCommand)];
      case Some(expected) =>
        ChildDepth(c.commands, name);
        var params := NewParams(expected.params, actual.params, path + [name], additions);
        errors', additions' := errors, params;
        if expected.commands != [] || actual.commands != [] {
          errors', additions' := CompareCommands(expected, actual, path + [name], errors, params);
        }
        ConcatAssociative(additions, ParamAdditions(expected.params, actual.params, path + [name]),
            SharedAdditions(c, s, name, path));
    }
  }

  method CompareSurface(contract: Command, surface: Command) returns (errors: seq<Error>, additions: seq<Addition>)
    requires WellFormed(contract) && WellFormed(surface)
    ensures errors == Errors(contract, surface, []) && additions == Additions(contract, surface, [])
  {
    errors, additions := CompareCommands(contract, surface, [], [], []);
  }

  // ---- what the comparison reports -----------------------------------------------

  ghost predicate ParamViolation(expected: seq<(Name, Param)>, actual: seq<(Name, Param)>, kind: ErrorKind) {
    match kind
    case CommandRemoved => false
    case ParamRemoved(p) => Lookup(expected, p).Some? && Lookup(actual, p).None?
    case ParamChanged(p) =>
      Lookup(expected, p).Some? && Lookup(actual, p).Some?
      && var e, a := Lookup(expected, p).value, Lookup(actual, p).value;
         multiset(e.opts) != multiset(a.opts) || e.required != a.required
  }

  /** Following rel through both trees leads to a violation of the given kind. */
  ghost predicate Violates(c: Command, s: Command, rel: seq<Name>, kind: ErrorKind)
    decreases |rel|
  {
    && rel != []
    && Lookup(c.commands, rel[0]).Some?
    && var expected := Lookup(c.commands, rel[0]).value;
       match Lookup(s.commands, rel[0])
       case None => |rel| == 1 && kind == CommandRemoved
       case Some(actual) =>
         if |rel| == 1 then ParamViolation(expected.params, actual.params, kind)
         else Violates(expected, actual, rel[1..], kind)
  }

  function Pow2(n: nat): (r: nat)
    ensures r > 0
  {
    if n == 0 then 1 else 2 * Pow2(n - 1)
  }

  lemma {:induction false} CountParamErrors(expected: seq<(Name, Param)>, actual: seq<(Name, Param)>, full: seq<Name>,
                                            m: Error)
    requires DistinctNames(expected)
    ensures Count(ParamErrors(expected, actual, full), m)
            == if m.path == full && ParamViolation(expected, actual, m.kind) then 1 else 0
  {
    if expected != [] {
      var first := ParamError(expected[0], actual, full);
      CountParamErrors(expected[1..], actual, full, m);
      CountAppend(first, ParamErrors(expected[1..], actual, full), m);
      if first != [] { assert first[1..] == []; }
    }
  }

  /** Every reported path lies strictly below the starting one. */
  lemma {:induction false} ErrorsBelow(c: Command, s: Command, path: seq<Name>, m: Error)
    requires WellFormed(c) && WellFormed(s) && m in Errors(c, s, path)
    ensures path < m.path
    decreases Depth(c), 2, 0
  {
    SortedLookup(c.commands);
    SortedLookup(s.commands);
    if m in ContractErrors(c, s, SortedByName(c.commands), path) {
      ContractErrorsBelow(c, s, SortedByName(c.commands), path, m);
    } else {
      SurfaceErrorsBelow(c, s, SortedByName(s.commands), path, m);
    }
  }

  lemma {:induction false} SharedErrorsBelow(c: Command, s: Command, name: Name, path: seq<Name>, m: Error)
    requires WellFormed(c) && WellFormed(s) && m in SharedErrors(c, s, name, path)
    ensures path < m.path
    decreases Depth(c), 0, 0
  {
    ChildDepth(c.commands, name);
    ErrorsBelow(Lookup(c.commands, name).value, Lookup(s.commands, name).value, path + [name], m);
  }

  lemma {:induction false} ContractErrorsBelow(c: Command, s: Command, rest: seq<(Name, Command)>, path: seq<Name>,
                                               m: Error)
    requires WellFormed(c) && WellFormed(s) && DistinctNames(rest) && PartOf(rest, c.commands)
    requires m in ContractErrors(c, s, rest, path)
    ensures path < m.path
    decreases Depth(c), 1, |rest|
  {
    var name := rest[0].0;
    assert Lookup(rest, name) == Some(rest[0].1);
    if m in ContractErrors(c, s, rest[1..], path) {
      ContractErrorsBelow(c, s, rest[1..], path, m);
    } else if Lookup(s.commands, name).Some? {
      var expected, actual := Lookup(c.commands, name).value, Lookup(s.commands, name).value;
      var params := ParamErrors(expected.params, actual.params, path + [name]);
      if m in params {
        CountPositive(params, m);
        CountParamErrors(expected.params, actual.params, path + [name], m);
      } else {
        SharedErrorsBelow(c, s, name, path, m);
      }
    }
  }

  lemma {:induction false} SurfaceErrorsBelow(c: Command, s: Command, rest: seq<(Name, Command)>, path: seq<Name>,
                                              m: Error)
    requires WellFormed(c) && WellFormed(s) && DistinctNames(rest) && PartOf(rest, s.commands)
    requires m in SurfaceErrors(c, s, rest, path)
    ensures path < m.path
    decreases Depth(c), 1, |rest|
  {
    if m in SurfaceErrors(c, s, rest[1..], path) {
      SurfaceErrorsBelow(c, s, rest[1..], path, m);
    } else {
      SharedErrorsBelow(c, s, rest[0].0, path, m);
    }
  }

  /** A violation rel names deep is reported once for each choice of loop at each level above it:
      2^(|rel| - 1) times, and anything else not at all. */
  lemma {:induction false} ErrorsCounted(c: Command, s: Command, path: seq<Name>, rel: seq<Name>, kind: ErrorKind)
    requires WellFormed(c) && WellFormed(s)
    ensures Count(Errors(c, s, path), Error(path + rel, kind)) ==
      if Violates(c, s, rel, kind) then Pow2(|rel| - 1) else 0
    decreases Depth(c), 2, 0
  {
    var m := Error(path + rel, kind);
    SortedLookup(c.commands);
    SortedLookup(s.commands);
    if rel == [] {
      CountPositive(Errors(c, s, path), m);
      if m in Errors(c, s, path) { ErrorsBelow(c, s, path, m); }
    } else {
      CountAppend(ContractErrors(c, s, SortedByName(c.commands), path),
          SurfaceErrors(c, s, SortedByName(s.commands), path), m);
      ContractErrorsCounted(c, s, SortedByName(c.commands), path, rel, kind);
      SurfaceErrorsCounted(c, s, SortedByName(s.commands), path, rel, kind);
    }
  }

  /** Reports of a violation from descending into one shared command called name. */
  lemma {:induction false} SharedErrorsCounted(c: Command, s: Command, name: Name, path: seq<Name>, rel: seq<Name>,
                                               kind: ErrorKind)
    requires WellFormed(c) && WellFormed(s) && rel != []
    ensures Count(SharedErrors(c, s, name, path), Error(path + rel, kind))
            == if name == rel[0] && |rel| > 1 && Violates(c, s, rel, kind) then Pow2(|rel| - 2) else 0
    decreases Depth(c), 0, 0
  {
    var m := Error(path + rel, kind);
    if Lookup(c.commands, name).Some? && Lookup(s.commands, name).Some? {
      var expected, actual := Lookup(c.commands, name).value, Lookup(s.commands, name).value;
      ChildDepth(c.commands, name);
      assert SharedErrors(c, s, name, path) == Errors(expected, actual, path + [name]);
      if name == rel[0] {
        assert path + rel == path + [name] + rel[1..];
        ErrorsCounted(expected, actual, path + [name], rel[1..], kind);
      } else {
        CountPositive(Errors(expected, actual, path + [name]), m);
        OtherPath(path, name, rel);
        if m in Errors(expected, actual, path + [name]) { ErrorsBelow(expected, actual, path + [name], m); }
      }
    }
  }

  lemma {:induction false} RequiredErrorsCounted(c: Command, s: Command, name: Name, path: seq<Name>, rel: seq<Name>,
                                                 kind: ErrorKind)
    requires WellFormed(c) && WellFormed(s) && Lookup(c.commands, name).Some? && rel != []
    ensures Count(RequiredErrors(c, s, name, path), Error(path + rel, kind))
            == if name == rel[0] && Violates(c, s, rel, kind) then (if |rel| == 1 then 1 else Pow2(|rel| - 2)) else 0
    decreases Depth(c), 0, 1
  {
    var m := Error(path + rel, kind);
    SamePath(path, name, rel);
    match Lookup(s.commands, name) {
      case None =>
        assert RequiredErrors(c, s, name, path)[1..] == [];
      case Some(actual) =>
        var params := Lookup(c.commands, name).value.params;
        CountAppend(ParamErrors(params, actual.params, path + [name]), SharedErrors(c, s, name, path), m);
        CountParamErrors(params, actual.params, path + [name], m);
        SharedErrorsCounted(c, s, name, path, rel, kind);
    }
  }

  lemma {:induction false} ContractErrorsCounted(c: Command, s: Command, rest: seq<(Name, Command)>, path: seq<Name>,
                                                 rel: seq<Name>, kind: ErrorKind)
    requires WellFormed(c) && WellFormed(s) && DistinctNames(rest) && PartOf(rest, c.commands) && rel != []
    ensures Count(ContractErrors(c, s, rest, path), Error(path + rel, kind))
            == if Lookup(rest, rel[0]).Some? && Violates(c, s, rel, kind) then
                 if |rel| == 1 then 1 else Pow2(|rel| - 2)
               else 0
    decreases Depth(c), 1, |rest|
  {
    if rest != [] {
      var name := rest[0].0;
      assert Lookup(rest, name) == Some(rest[0].1);
      ContractErrorsCounted(c, s, rest[1..], path, rel, kind);
      CountAppend(RequiredErrors(c, s, name, path), ContractErrors(c, s, rest[1..], path), Error(path + rel, kind));
      RequiredErrorsCounted(c, s, name, path, rel, kind);
    }
  }

  lemma {:induction false} SurfaceErrorsCounted(c: Command, s: Command, rest: seq<(Name, Command)>, path: seq<Name>,
                                                rel: seq<Name>, kind: ErrorKind)
    requires WellFormed(c) && WellFormed(s) && DistinctNames(rest) && PartOf(rest, s.commands) && rel != []
    ensures Count(SurfaceErrors(c, s, rest, path), Error(path + rel, kind))
            == if Lookup(rest, rel[0]).Some? && |rel| > 1 && Violates(c, s, rel, kind) then Pow2(|rel| - 2) else 0
    decreases Depth(c), 1, |rest|
  {
    if rest != [] {
      SurfaceErrorsCounted(c, s, rest[1..], path, rel, kind);
      CountAppend(SharedErrors(c, s, rest[0].0, path), SurfaceErrors(c, s, rest[1..], path), Error(path + rel, kind));
      SharedErrorsCounted(c, s, rest[0].0, path, rel, kind);
    }
  }

  lemma {:induction false} OtherPath(path: seq<Name>, name: Name, rel: seq<Name>)
    requires rel != [] && name != rel[0]
    ensures !(path + [name] < path + rel)
  {
    assert (path + [name])[|path|] == name && (path + rel)[|path|] == rel[0];
  }

  lemma {:induction false} SamePath(path: seq<Name>, name: Name, rel: seq<Name>)
    requires rel != []
    ensures path + [name] == path + rel <==> rel == [name]
  {
    if path + [name] == path + rel {
      assert (path + rel)[|path|..] == rel;
    }
  }

  // ---- the order of the reports ---------------------------------------------------------

  /** From i on and before k each message is below a child of path, and the children come in the order of
      their names. */
  ghost predicate InNameOrder(paths: seq<seq<Name>>, path: seq<Name>, i: nat, k: nat) {
    && i <= k <= |paths|
    && (forall m :: i <= m < k ==> path < paths[m])
    && forall m, n :: i <= m < n < k && path < paths[m] && path < paths[n] ==>
         !TextLess(paths[n][|path|], paths[m][|path|])
  }

  /** A first pass over the names in order, then a second. */
  ghost predicate TwoPasses(paths: seq<seq<Name>>, path: seq<Name>) {
    exists k: nat :: InNameOrder(paths, path, 0, k) && InNameOrder(paths, path, k, |paths|)
  }

  function ErrorPaths(errors: seq<Error>): (paths: seq<seq<Name>>)
    ensures |paths| == |errors| && forall i :: 0 <= i < |errors| ==> paths[i] == errors[i].path
  {
    seq(|errors|, i requires 0 <= i < |errors| => errors[i].path)
  }

  function AdditionPaths(additions: seq<Addition>): (paths: seq<seq<Name>>)
    ensures |paths| == |additions| && forall i :: 0 <= i < |additions| ==> paths[i] == additions[i].path
  {
    seq(|additions|, i requires 0 <= i < |additions| => additions[i].path)
  }

  /** Everything reported is below the child. */
  ghost predicate AllBelow(paths: seq<seq<Name>>, full: seq<Name>) {
    forall m :: 0 <= m < |paths| ==> full <= paths[m]
  }

  ghost predicate NamesFrom(paths: seq<seq<Name>>, path: seq<Name>, name: Name) {
    forall m :: 0 <= m < |paths| ==> path < paths[m] && !TextLess(paths[m][|path|], name)
  }

  /** What is reported for a name and then, in order, for names that do not come before it. */
  lemma {:induction false} PassNext(first: seq<seq<Name>>, rest: seq<seq<Name>>, path: seq<Name>, name: Name)
    requires AllBelow(first, path + [name])
    requires InNameOrder(rest, path, 0, |rest|) && NamesFrom(rest, path, name)
    ensures InNameOrder(first + rest, path, 0, |first + rest|) && NamesFrom(first + rest, path, name)
  {
    var all := first + rest;
    TextOrder(name, name, name);
    forall m | 0 <= m < |first| ensures path < all[m] && all[m][|path|] == name {
      assert (path + [name])[|path|] == name && path + [name] <= first[m];
    }
  }

  lemma {:induction false} NamesFromLess(paths: seq<seq<Name>>, path: seq<Name>, a: Name, b: Name)
    requires NamesFrom(paths, path, b) && !TextLess(b, a)
    ensures NamesFrom(paths, path, a)
  {
    forall m | 0 <= m < |paths| ensures !TextLess(paths[m][|path|], a) {
      TextOrder(paths[m][|path|], b, a);
    }
  }

  lemma {:induction false} SortedTail(rest: seq<(Name, Command)>)
    requires rest != [] && Sorted(rest, ByName())
    ensures Sorted(rest[1..], ByName())
    ensures |rest| > 1 ==> !TextLess(rest[1].0, rest[0].0)
  {
    assert |rest| > 1 ==> !Less(ByName()(rest[1]), ByName()(rest[0]));
  }

  lemma {:induction false} RequiredBelow(c: Command, s: Command, name: Name, path: seq<Name>)
    requires WellFormed(c) && WellFormed(s) && Lookup(c.commands, name).Some?
    ensures AllBelow(ErrorPaths(RequiredErrors(c, s, name, path)), path + [name])
  {
    var errors := RequiredErrors(c, s, name, path);
    forall i | 0 <= i < |errors| ensures path + [name] <= errors[i].path {
      if Lookup(s.commands, name).Some? {
        var expected, actual := Lookup(c.commands, name).value, Lookup(s.commands, name).value;
        var params := ParamErrors(expected.params, actual.params, path + [name]);
        if errors[i] in params {
          CountPositive(params, errors[i]);
          CountParamErrors(expected.params, actual.params, path + [name], errors[i]);
        } else {
          SharedBelow(c, s, name, path, errors[i]);
        }
      }
    }
  }

  lemma {:induction false} SharedBelow(c: Command, s: Command, name: Name, path: seq<Name>, m: Error)
    requires WellFormed(c) && WellFormed(s) && m in SharedErrors(c, s, name, path)
    ensures path + [name] < m.path
  {
    ChildDepth(c.commands, name);
    ErrorsBelow(Lookup(c.commands, name).value, Lookup(s.commands, name).value, path + [name], m);
  }

  lemma {:induction false} ContractPass(c: Command, s: Command, rest: seq<(Name, Command)>, path: seq<Name>)
    requires WellFormed(c) && WellFormed(s) && DistinctNames(rest) && PartOf(rest, c.commands)
    requires Sorted(rest, ByName())
    ensures var paths := ErrorPaths(ContractErrors(c, s, rest, path));
      InNameOrder(paths, path, 0, |paths|) && (rest != [] ==> NamesFrom(paths, path, rest[0].0))
  {
    if rest != [] {
      var name := rest[0].0;
      assert Lookup(rest, name) == Some(rest[0].1);
      SortedTail(rest);
      ContractPass(c, s, rest[1..], path);
      RequiredBelow(c, s, name, path);
      var first := ErrorPaths(RequiredErrors(c, s, name, path));
      var more := ErrorPaths(ContractErrors(c, s, rest[1..], path));
      if |rest| > 1 {
        NamesFromLess(more, path, name, rest[1].0);
      }
      PassNext(first, more, path, name);
      assert ErrorPaths(ContractErrors(c, s, rest, path)) == first + more;
    }
  }

  lemma {:induction false} SurfacePass(c: Command, s: Command, rest: seq<(Name, Command)>, path: seq<Name>)
    requires WellFormed(c) && WellFormed(s) && DistinctNames(rest) && PartOf(rest, s.commands)
    requires Sorted(rest, ByName())
    ensures var paths := ErrorPaths(SurfaceErrors(c, s, rest, path));
      InNameOrder(paths, path, 0, |paths|) && (rest != [] ==> NamesFrom(paths, path, rest[0].0))
  {
    if rest != [] {
      var name := rest[0].0;
      assert Lookup(rest, name) == Some(rest[0].1);
      SortedTail(rest);
      SurfacePass(c, s, rest[1..], path);
      var shared := SharedErrors(c, s, name, path);
      forall i | 0 <= i < |shared| ensures path + [name] <= shared[i].path {
        SharedBelow(c, s, name, path, shared[i]);
      }
      var first, more := ErrorPaths(shared), ErrorPaths(SurfaceErrors(c, s, rest[1..], path));
      if |rest| > 1 {
        NamesFromLess(more, path, name, rest[1].0);
      }
      PassNext(first, more, path, name);
      assert ErrorPaths(SurfaceErrors(c, s, rest, path)) == first + more;
    }
  }

  lemma {:induction false} PassesJoin(first: seq<seq<Name>>, second: seq<seq<Name>>, path: seq<Name>)
    requires InNameOrder(first, path, 0, |first|) && InNameOrder(second, path, 0, |second|)
    ensures TwoPasses(first + second, path)
  {
    var all := first + second;
    assert forall m :: |first| <= m < |all| ==> all[m] == second[m - |first|];
    assert InNameOrder(all, path, 0, |first|);
    assert InNameOrder(all, path, |first|, |all|);
  }

  lemma {:induction false} SortedEntries<T(!new)>(entries: seq<(Name, T)>)
    requires DistinctNames(entries)
    ensures var inOrder := SortedByName(entries);
      DistinctNames(inOrder) && PartOf(inOrder, entries) && Sorted(inOrder, ByName())
  {
    SortedLookup(entries);
    SortIsStable(entries, ByName(), Text(""));
  }

  lemma {:induction false} ErrorPathsConcat(a: seq<Error>, b: seq<Error>)
    ensures ErrorPaths(a + b) == ErrorPaths(a) + ErrorPaths(b)
  {
  }

  /** Errors come in two passes over the children, each in the order of their names. */
  lemma {:induction false} ErrorsInOrder(c: Command, s: Command, path: seq<Name>)
    requires WellFormed(c) && WellFormed(s)
    ensures TwoPasses(ErrorPaths(Errors(c, s, path)), path)
  {
    SortedEntries(c.commands);
    SortedEntries(s.commands);
    ContractPass(c, s, SortedByName(c.commands), path);
    SurfacePass(c, s, SortedByName(s.commands), path);
    var first := ContractErrors(c, s, SortedByName(c.commands), path);
    var second := SurfaceErrors(c, s, SortedByName(s.commands), path);
    PassesJoin(ErrorPaths(first), ErrorPaths(second), path);
    ErrorPathsConcat(first, second);
  }

  // ---- additions: the same shape with the loops' roles exchanged ----------------------

  /** Following rel through both trees leads to a new command or option in the surface. */
  ghost predicate Adds(c: Command, s: Command, rel: seq<Name>, kind: AdditionKind)
    decreases |rel|
  {
    && rel != []
    && Lookup(s.commands, rel[0]).Some?
    && var actual := Lookup(s.commands, rel[0]).value;
       match Lookup(c.commands, rel[0])
       case None => |rel| == 1 && kind == NewCommand
       case Some(expected) =>
         if |rel| == 1 then
           kind.NewParam? && Lookup(actual.params, kind.param).Some? && Lookup(expected.params, kind.param).None?
         else Adds(expected, actual, rel[1..], kind)
  }

  lemma {:induction false} CountParamAdditions(expected: seq<(Name, Param)>, actual: seq<(Name, Param)>,
                                               full: seq<Name>, m: Addition)
    requires DistinctNames(actual)
    ensures Count(ParamAdditions(expected, actual, full), m)
            == if && m.path == full && m.kind.NewParam?
                  && Lookup(actual, m.kind.param).Some? && Lookup(expected, m.kind.param).None?
               then 1 else 0
  {
    if actual != [] {
      var first := if Lookup(expected, actual[0].0) == None then [Addition(full, NewParam(actual[0].0))] else [];
      CountParamAdditions(expected, actual[1..], full, m);
      CountAppend(first, ParamAdditions(expected, actual[1..], full), m);
      if first != [] { assert first[1..] == []; }
    }
  }

  lemma {:induction false} AdditionsBelow(c: Command, s: Command, path: seq<Name>, m: Addition)
    requires WellFormed(c) && WellFormed(s) && m in Additions(c, s, path)
    ensures path < m.path
    decreases Depth(c), 2, 0
  {
    SortedLookup(c.commands);
    SortedLookup(s.commands);
    if m in ContractAdditions(c, s, SortedByName(c.commands), path) {
      ContractAdditionsBelow(c, s, SortedByName(c.commands), path, m);
    } else {
      SurfaceAdditionsBelow(c, s, SortedByName(s.commands), path, m);
    }
  }

  lemma {:induction false} SharedAdditionsBelow(c: Command, s: Command, name: Name, path: seq<Name>, m: Addition)
    requires WellFormed(c) && WellFormed(s) && m in SharedAdditions(c, s, name, path)
    ensures path < m.path
    decreases Depth(c), 0, 0
  {
    ChildDepth(c.commands, name);
    AdditionsBelow(Lookup(c.commands, name).value, Lookup(s.commands, name).value, path + [name], m);
  }

  lemma {:induction false} ContractAdditionsBelow(c: Command, s: Command, rest: seq<(Name, Command)>, path: seq<Name>,
                                                  m: Addition)
    requires WellFormed(c) && WellFormed(s) && DistinctNames(rest) && PartOf(rest, c.commands)
    requires m in ContractAdditions(c, s, rest, path)
    ensures path < m.path
    decreases Depth(c), 1, |rest|
  {
    if m in ContractAdditions(c, s, rest[1..], path) {
      ContractAdditionsBelow(c, s, rest[1..], path, m);
    } else {
      SharedAdditionsBelow(c, s, rest[0].0, path, m);
    }
  }

  lemma {:induction false} SurfaceAdditionsBelow(c: Command, s: Command, rest: seq<(Name, Command)>, path: seq<Name>,
                                                 m: Addition)
    requires WellFormed(c) && WellFormed(s) && DistinctNames(rest) && PartOf(rest, s.commands)
    requires m in SurfaceAdditions(c, s, rest, path)
    ensures path < m.path
    decreases Depth(c), 1, |rest|
  {
    var name := rest[0].0;
    assert Lookup(rest, name) == Some(rest[0].1);
    if m in SurfaceAdditions(c, s, rest[1..], path) {
      SurfaceAdditionsBelow(c, s, rest[1..], path, m);
    } else if Lookup(c.commands, name).Some? {
      var expected, actual := Lookup(c.commands, name).value, Lookup(s.commands, name).value;
      var params := ParamAdditions(expected.params, actual.params, path + [name]);
      if m in params {
        CountPositive(params, m);
        CountParamAdditions(expected.params, actual.params, path + [name], m);
      } else {
        SharedAdditionsBelow(c, s, name, path, m);
      }
    }
  }

  lemma {:induction false} AdditionsCounted(c: Command, s: Command, path: seq<Name>, rel: seq<Name>, kind: AdditionKind)
    requires WellFormed(c) && WellFormed(s)
    ensures Count(Additions(c, s, path), Addition(path + rel, kind)) ==
      if Adds(c, s, rel, kind) then Pow2(|rel| - 1) else 0
    decreases Depth(c), 2, 0
  {
    var m := Addition(path + rel, kind);
    SortedLookup(c.commands);
    SortedLookup(s.commands);
    if rel == [] {
      CountPositive(Additions(c, s, path), m);
      if m in Additions(c, s, path) { AdditionsBelow(c, s, path, m); }
    } else {
      CountAppend(ContractAdditions(c, s, SortedByName(c.commands), path),
          SurfaceAdditions(c, s, SortedByName(s.commands), path), m);
      ContractAdditionsCounted(c, s, SortedByName(c.commands), path, rel, kind);
      SurfaceAdditionsCounted(c, s, SortedByName(s.commands), path, rel, kind);
    }
  }

  lemma {:induction false} SharedAdditionsCounted(c: Command, s: Command, name: Name, path: seq<Name>, rel: seq<Name>,
                                                  kind: AdditionKind)
    requires WellFormed(c) && WellFormed(s) && rel != []
    ensures Count(SharedAdditions(c, s, name, path), Addition(path + rel, kind))
            == if name == rel[0] && |rel| > 1 && Adds(c, s, rel, kind) then Pow2(|rel| - 2) else 0
    decreases Depth(c), 0, 0
  {
    var m := Addition(path + rel, kind);
    if Lookup(c.commands, name).Some? && Lookup(s.commands, name).Some? {
      var expected, actual := Lookup(c.commands, name).value, Lookup(s.commands, name).value;
      ChildDepth(c.commands, name);
      assert SharedAdditions(c, s, name, path) == Additions(expected, actual, path + [name]);
      if name == rel[0] {
        assert path + rel == path + [name] + rel[1..];
        AdditionsCounted(expected, actual, path + [name], rel[1..], kind);
      } else {
        CountPositive(Additions(expected, actual, path + [name]), m);
        OtherPath(path, name, rel);
        if m in Additions(expected, actual, path + [name]) { AdditionsBelow(expected, actual, path + [name], m); }
      }
    }
  }

  lemma {:induction false} PresentAdditionsCounted(c: Command, s: Command, name: Name, path: seq<Name>,
                                                   rel: seq<Name>, kind: AdditionKind)
    requires WellFormed(c) && WellFormed(s) && Lookup(s.commands, name).Some? && rel != []
    ensures Count(PresentAdditions(c, s, name, path), Addition(path + rel, kind))
            == if name == rel[0] && Adds(c, s, rel, kind) then (if |rel| == 1 then 1 else Pow2(|rel| - 2)) else 0
    decreases Depth(c), 0, 1
  {
    var m := Addition(path + rel, kind);
    SamePath(path, name, rel);
    match Lookup(c.commands, name) {
      case None =>
        assert PresentAdditions(c, s, name, path)[1..] == [];
      case Some(expected) =>
        var params := Lookup(s.commands, name).value.params;
        CountAppend(ParamAdditions(expected.params, params, path + [name]), SharedAdditions(c, s, name, path), m);
        CountParamAdditions(expected.params, params, path + [name], m);
        SharedAdditionsCounted(c, s, name, path, rel, kind);
    }
  }

  lemma {:induction false} ContractAdditionsCounted(c: Command, s: Command, rest: seq<(Name, Command)>,
                                                    path: seq<Name>, rel: seq<Name>, kind: AdditionKind)
    requires WellFormed(c) && WellFormed(s) && DistinctNames(rest) && PartOf(rest, c.commands) && rel != []
    ensures Count(ContractAdditions(c, s, rest, path), Addition(path + rel, kind))
            == if Lookup(rest, rel[0]).Some? && |rel| > 1 && Adds(c, s, rel, kind) then Pow2(|rel| - 2) else 0
    decreases Depth(c), 1, |rest|
  {
    if rest != [] {
      ContractAdditionsCounted(c, s, rest[1..], path, rel, kind);
      CountAppend(SharedAdditions(c, s, rest[0].0, path), ContractAdditions(c, s, rest[1..], path),
          Addition(path + rel, kind));
      SharedAdditionsCounted(c, s, rest[0].0, path, rel, kind);
    }
  }

  lemma {:induction false} SurfaceAdditionsCounted(c: Command, s: Command, rest: seq<(Name, Command)>,
                                                   path: seq<Name>, rel: seq<Name>, kind: AdditionKind)
    requires WellFormed(c) && WellFormed(s) && DistinctNames(rest) && PartOf(rest, s.commands) && rel != []
    ensures Count(SurfaceAdditions(c, s, rest, path), Addition(path + rel, kind))
            == if Lookup(rest, rel[0]).Some? && Adds(c, s, rel, kind) then
                 if |rel| == 1 then 1 else Pow2(|rel| - 2)
               else 0
    decreases Depth(c), 1, |rest|
  {
    if rest != [] {
      var name := rest[0].0;
      assert Lookup(rest, name) == Some(rest[0].1);
      SurfaceAdditionsCounted(c, s, rest[1..], path, rel, kind);
      CountAppend(PresentAdditions(c, s, name, path), SurfaceAdditions(c, s, rest[1..], path),
          Addition(path + rel, kind));
      PresentAdditionsCounted(c, s, name, path, rel, kind);
    }
  }

  // ---- the order of the additions -----------------------------------------------------------

  lemma {:induction false} SharedAddedBelow(c: Command, s: Command, name: Name, path: seq<Name>, m: Addition)
    requires WellFormed(c) && WellFormed(s) && m in SharedAdditions(c, s, name, path)
    ensures path + [name] < m.path
  {
    ChildDepth(c.commands, name);
    AdditionsBelow(Lookup(c.commands, name).value, Lookup(s.commands, name).value, path + [name], m);
  }

  lemma {:induction false} PresentBelow(c: Command, s: Command, name: Name, path: seq<Name>)
    requires WellFormed(c) && WellFormed(s) && Lookup(s.commands, name).Some?
    ensures AllBelow(AdditionPaths(PresentAdditions(c, s, name, path)), path + [name])
  {
    var additions := PresentAdditions(c, s, name, path);
    forall i | 0 <= i < |additions| ensures path + [name] <= additions[i].path {
      if Lookup(c.commands, name).Some? {
        var expected, actual := Lookup(c.commands, name).value, Lookup(s.commands, name).value;
        var params := ParamAdditions(expected.params, actual.params, path + [name]);
        if additions[i] in params {
          CountPositive(params, additions[i]);
          CountParamAdditions(expected.params, actual.params, path + [name], additions[i]);
        } else {
          SharedAddedBelow(c, s, name, path, additions[i]);
        }
      }
    }
  }

  lemma {:induction false} AdditionPathsConcat(a: seq<Addition>, b: seq<Addition>)
    ensures AdditionPaths(a + b) == AdditionPaths(a) + AdditionPaths(b)
  {
  }

  lemma {:induction false} ContractAddedPass(c: Command, s: Command, rest: seq<(Name, Command)>, path: seq<Name>)
    requires WellFormed(c) && WellFormed(s) && DistinctNames(rest) && PartOf(rest, c.commands)
    requires Sorted(rest, ByName())
    ensures var paths := AdditionPaths(ContractAdditions(c, s, rest, path));
      InNameOrder(paths, path, 0, |paths|) && (rest != [] ==> NamesFrom(paths, path, rest[0].0))
  {
    if rest != [] {
      var name := rest[0].0;
      assert Lookup(rest, name) == Some(rest[0].1);
      SortedTail(rest);
      ContractAddedPass(c, s, rest[1..], path);
      var shared, later := SharedAdditions(c, s, name, path), ContractAdditions(c, s, rest[1..], path);
      forall i | 0 <= i < |shared| ensures path + [name] <= shared[i].path {
        SharedAddedBelow(c, s, name, path, shared[i]);
      }
      if |rest| > 1 {
        NamesFromLess(AdditionPaths(later), path, name, rest[1].0);
      }
      PassNext(AdditionPaths(shared), AdditionPaths(later), path, name);
      AdditionPathsConcat(shared, later);
    }
  }

  lemma {:induction false} SurfaceAddedPass(c: Command, s: Command, rest: seq<(Name, Command)>, path: seq<Name>)
    requires WellFormed(c) && WellFormed(s) && DistinctNames(rest) && PartOf(rest, s.commands)
    requires Sorted(rest, ByName())
    ensures var paths := AdditionPaths(SurfaceAdditions(c, s, rest, path));
      InNameOrder(paths, path, 0, |paths|) && (rest != [] ==> NamesFrom(paths, path, rest[0].0))
  {
    if rest != [] {
      var name := rest[0].0;
      assert Lookup(rest, name) == Some(rest[0].1);
      SortedTail(rest);
      SurfaceAddedPass(c, s, rest[1..], path);
      PresentBelow(c, s, name, path);
      var present, later := PresentAdditions(c, s, name, path), SurfaceAdditions(c, s, rest[1..], path);
      if |rest| > 1 {
        NamesFromLess(AdditionPaths(later), path, name, rest[1].0);
      }
      PassNext(AdditionPaths(present), AdditionPaths(later), path, name);
      AdditionPathsConcat(present, later);
    }
  }

  /** Additions come in the same two passes. */
  lemma {:induction false} AdditionsInOrder(c: Command, s: Command, path: seq<Name>)
    requires WellFormed(c) && WellFormed(s)
    ensures TwoPasses(AdditionPaths(Additions(c, s, path)), path)
  {
    SortedEntries(c.commands);
    SortedEntries(s.commands);
    ContractAddedPass(c, s, SortedByName(c.commands), path);
    SurfaceAddedPass(c, s, SortedByName(s.commands), path);
    var first := ContractAdditions(c, s, SortedByName(c.commands), path);
    var second := SurfaceAdditions(c, s, SortedByName(s.commands), path);
    PassesJoin(AdditionPaths(first), AdditionPaths(second), path);
    AdditionPathsConcat(first, second);
  }

  // ---- the additive-only rule ----------------------------------------------------------

  ghost predicate ParamsEmbed(expected: seq<(Name, Param)>, actual: seq<(Name, Param)>) {
    forall p :: Lookup(expected, p).Some? ==>
      Lookup(actual, p).Some? && SameParam(Lookup(actual, p).value, Lookup(expected, p).value)
  }

  /** Every command and option of c is in s, unchanged, at every level. */
  ghost predicate Embeds(c: Command, s: Command)
    decreases Depth(c)
  {
    forall n :: Lookup(c.commands, n).Some? ==>
      (ChildDepth(c.commands, n);
       && Lookup(s.commands, n).Some?
       && ParamsEmbed(Lookup(c.commands, n).value.params, Lookup(s.commands, n).value.params)
       && Embeds(Lookup(c.commands, n).value, Lookup(s.commands, n).value))
  }

  /** The same commands at every level, with the same options up to the order of their flags. */
  ghost predicate SameTree(c: Command, s: Command)
    decreases Depth(c)
  {
    && (forall n :: Lookup(c.commands, n).Some? <==> Lookup(s.commands, n).Some?)
    && (forall n :: Lookup(c.commands, n).Some? ==>
          (ChildDepth(c.commands, n);
           && ParamsEmbed(Lookup(c.commands, n).value.params, Lookup(s.commands, n).value.params)
           && ParamsEmbed(Lookup(s.commands, n).value.params, Lookup(c.commands, n).value.params)
           && SameTree(Lookup(c.commands, n).value, Lookup(s.commands, n).value)))
  }

  lemma {:induction false} EmbedsReflexive(c: Command)
    ensures Embeds(c, c)
    decreases Depth(c)
  {
    forall n | Lookup(c.commands, n).Some? ensures Embeds(Lookup(c.commands, n).value, Lookup(c.commands, n).value) {
      ChildDepth(c.commands, n);
      EmbedsReflexive(Lookup(c.commands, n).value);
    }
  }

  lemma {:induction false} EmbedsTransitive(a: Command, b: Command, c: Command)
    requires Embeds(a, b) && Embeds(b, c)
    ensures Embeds(a, c)
    decreases Depth(a)
  {
    forall n | Lookup(a.commands, n).Some?
      ensures Lookup(c.commands, n).Some?
      ensures ParamsEmbed(Lookup(a.commands, n).value.params, Lookup(c.commands, n).value.params)
      ensures Embeds(Lookup(a.commands, n).value, Lookup(c.commands, n).value)
    {
      ChildDepth(a.commands, n);
      assert Lookup(b.commands, n).Some?;
      EmbedsTransitive(Lookup(a.commands, n).value, Lookup(b.commands, n).value, Lookup(c.commands, n).value);
    }
  }

  lemma {:induction false} EmbeddedNoViolation(c: Command, s: Command, rel: seq<Name>, kind: ErrorKind)
    requires Embeds(c, s)
    ensures !Violates(c, s, rel, kind)
    decreases |rel|
  {
    if rel != [] && Lookup(c.commands, rel[0]).Some? {
      ChildDepth(c.commands, rel[0]);
      EmbeddedNoViolation(Lookup(c.commands, rel[0]).value, Lookup(s.commands, rel[0]).value, rel[1..], kind);
    }
  }

  lemma {:induction false} ViolationIfNotEmbedded(c: Command, s: Command) returns (rel: seq<Name>, kind: ErrorKind)
    requires !Embeds(c, s)
    ensures Violates(c, s, rel, kind)
    decreases Depth(c)
  {
    var n :| Lookup(c.commands, n).Some? &&
      !(&& Lookup(s.commands, n).Some?
        && ParamsEmbed(Lookup(c.commands, n).value.params, Lookup(s.commands, n).value.params)
        && Embeds(Lookup(c.commands, n).value, Lookup(s.commands, n).value));
    ChildDepth(c.commands, n);
    var expected := Lookup(c.commands, n).value;
    if Lookup(s.commands, n).None? {
      rel, kind := [n], CommandRemoved;
    } else if !ParamsEmbed(expected.params, Lookup(s.commands, n).value.params) {
      var actual := Lookup(s.commands, n).value;
      var p :| Lookup(expected.params, p).Some? &&
        !(Lookup(actual.params, p).Some? &&
            SameParam(Lookup(actual.params, p).value, Lookup(expected.params, p).value));
      rel, kind := [n], if Lookup(actual.params, p).None? then ParamRemoved(p) else ParamChanged(p);
    } else {
      rel, kind := ViolationIfNotEmbedded(expected, Lookup(s.commands, n).value);
      rel := [n] + rel;
    }
  }

  /** No errors are reported exactly when the contract embeds in the surface. */
  lemma {:induction false} NoErrorsIffEmbeds(c: Command, s: Command)
    requires WellFormed(c) && WellFormed(s)
    ensures Errors(c, s, []) == [] <==> Embeds(c, s)
  {
    var errors := Errors(c, s, []);
    if !Embeds(c, s) {
      var rel, kind := ViolationIfNotEmbedded(c, s);
      ErrorsCounted(c, s, [], rel, kind);
    } else if errors != [] {
      var m := errors[0];
      assert [] + m.path == m.path;
      ErrorsCounted(c, s, [], m.path, m.kind);
      EmbeddedNoViolation(c, s, m.path, m.kind);
      CountPositive(errors, m);
    }
  }

  lemma {:induction false} SameTreeAddsNothing(c: Command, s: Command, rel: seq<Name>, kind: AdditionKind)
    requires SameTree(c, s)
    ensures !Adds(c, s, rel, kind)
    decreases |rel|
  {
    if rel != [] && Lookup(s.commands, rel[0]).Some? {
      assert Lookup(c.commands, rel[0]).Some?;
      ChildDepth(c.commands, rel[0]);
      SameTreeAddsNothing(Lookup(c.commands, rel[0]).value, Lookup(s.commands, rel[0]).value, rel[1..], kind);
    }
  }

  lemma {:induction false} SameTreeEmbeds(c: Command, s: Command)
    requires SameTree(c, s)
    ensures Embeds(c, s)
    decreases Depth(c)
  {
    forall n | Lookup(c.commands, n).Some? ensures Embeds(Lookup(c.commands, n).value, Lookup(s.commands, n).value) {
      ChildDepth(c.commands, n);
      SameTreeEmbeds(Lookup(c.commands, n).value, Lookup(s.commands, n).value);
    }
  }

  /** A contract that embeds in a surface adding nothing to it is the same tree. */
  lemma {:induction false} NothingAddedIsSame(c: Command, s: Command)
    requires Embeds(c, s) && forall rel, kind :: !Adds(c, s, rel, kind)
    ensures SameTree(c, s)
    decreases Depth(c)
  {
    forall n ensures Lookup(c.commands, n).Some? <==> Lookup(s.commands, n).Some? {
      assert !Adds(c, s, [n], NewCommand);
    }
    forall n | Lookup(c.commands, n).Some?
      ensures ParamsEmbed(Lookup(s.commands, n).value.params, Lookup(c.commands, n).value.params)
      ensures SameTree(Lookup(c.commands, n).value, Lookup(s.commands, n).value)
    {
      var expected, actual := Lookup(c.commands, n).value, Lookup(s.commands, n).value;
      ChildDepth(c.commands, n);
      forall p | Lookup(actual.params, p).Some? ensures Lookup(expected.params, p).Some? {
        assert !Adds(c, s, [n], NewParam(p));
      }
      forall rel, kind ensures !Adds(expected, actual, rel, kind) {
        assert !Adds(c, s, [n] + rel, kind);
        assert ([n] + rel)[1..] == rel;
      }
      NothingAddedIsSame(expected, actual);
    }
  }

  /** Nothing at all is reported exactly when the trees are the same up to option order. */
  lemma {:induction false} CleanIffSameTree(c: Command, s: Command)
    requires WellFormed(c) && WellFormed(s)
    ensures Errors(c, s, []) == [] && Additions(c, s, []) == [] <==> SameTree(c, s)
  {
    NoErrorsIffEmbeds(c, s);
    var additions := Additions(c, s, []);
    if SameTree(c, s) {
      SameTreeEmbeds(c, s);
      if additions != [] {
        var m := additions[0];
        assert [] + m.path == m.path;
        AdditionsCounted(c, s, [], m.path, m.kind);
        SameTreeAddsNothing(c, s, m.path, m.kind);
        CountPositive(additions, m);
      }
    } else if Embeds(c, s) && additions == [] {
      forall rel, kind ensures !Adds(c, s, rel, kind) {
        AdditionsCounted(c, s, [], rel, kind);
      }
      NothingAddedIsSame(c, s);
    }
  }
}
