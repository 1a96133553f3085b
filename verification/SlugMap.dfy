/** `agents/slug_map.py`: collision-free slugs for personas. */
module SlugMap {
  import opened Collections

  const EXECUTIVE_SLUGS: map<string, string> := map[
    "Chief Executive Officer" := "ceo",
    "Chief Technology Officer" := "cto",
    "Chief Financial Officer" := "cfo",
    "Chief Operating Officer" := "coo",
    "Chief Marketing Officer" := "cmo",
    "Chief AI Officer" := "caio",
    "Chief Human Resources Officer" := "chro",
    "Chief Legal Officer" := "clo",
    "Chief Information Security Officer" := "ciso",
    "Chief Information Officer" := "cio",
    "Chief Data Officer" := "cdo",
    "Chief Strategy Officer" := "cso",
    "Chief of Staff" := "chief-of-staff"]

  const BUILTIN_AGENT_SLUGS: seq<string> :=
    ["build", "plan", "explore", "general", "architect", "builder", "compaction", "title", "summary"]

  /** What the slugs use of Python's character tables. */
  datatype Chars = Chars(isAlnum: char -> bool, isSpace: char -> bool, lower: string -> string)

  // ---- slugify -------------------------------------------------------------------

  function StripLeft(s: string, p: char -> bool): string {
    if s != [] && p(s[0]) then StripLeft(s[1..], p) else s
  }

  function StripRight(s: string, p: char -> bool): string {
    if s != [] && p(s[|s| - 1]) then StripRight(s[..|s| - 1], p) else s
  }

  /** The characters kept, and whether the last one was a separator. */
  function Hyphenate(chars: Chars, text: string): (r: (string, bool)) {
    if text == [] then ([], false)
    else
      var (parts, prevSep) := Hyphenate(chars, text[..|text| - 1]);
      var ch := text[|text| - 1];
      if chars.isAlnum(ch) then (parts + [ch], false)
      else if !prevSep then (parts + ['-'], true)
      else (parts, true)
  }

  function Slugify(chars: Chars, titleOrName: string): string {
    var text := chars.lower(StripRight(StripLeft(titleOrName, chars.isSpace), chars.isSpace));
    var isHyphen := (c: char) => c == '-';
    StripRight(StripLeft(Hyphenate(chars, text).0, isHyphen), isHyphen)
  }

  /** slugify's loop over the characters. */
  method SlugifyLoop(chars: Chars, text: string) returns (parts: string)
    ensures parts == Hyphenate(chars, text).0
  {
    parts := [];
    var prevSep := false;
    for i := 0 to |text|
      invariant (parts, prevSep) == Hyphenate(chars, text[..i])
    {
      assert text[..i + 1][..i] == text[..i];
      if chars.isAlnum(text[i]) {
        parts := parts + [text[i]];
        prevSep := false;
      } else if !prevSep {
        parts := parts + ['-'];
        prevSep := true;
      }
    }
    TakeAll(text);
  }

  /** A slug: alphanumeric runs separated by single hyphens. */
  ghost predicate IsSlug(chars: Chars, s: string) {
    && Hyphenated(chars, s)
    && (s != [] ==> s[0] != '-' && s[|s| - 1] != '-')
  }

  /** Alphanumeric characters and hyphens, no two hyphens in a row. */
  ghost predicate Hyphenated(chars: Chars, s: string) {
    && (forall c :: c in s ==> chars.isAlnum(c) || c == '-')
    && (forall i, j :: 0 <= i && j == i + 1 && j < |s| ==> s[i] != '-' || s[j] != '-')
  }

  lemma {:induction false} HyphenateShape(chars: Chars, text: string)
    requires !chars.isAlnum('-')
    ensures var (parts, prevSep) := Hyphenate(chars, text);
      && Hyphenated(chars, parts)
      && (prevSep ==> parts != [])
      && (parts != [] ==> (prevSep <==> parts[|parts| - 1] == '-'))
  {
    if text != [] { HyphenateShape(chars, text[..|text| - 1]); }
  }

  lemma {:induction false} HyphenatedSlice(chars: Chars, s: string, k: nat, m: nat)
    requires Hyphenated(chars, s) && k <= m <= |s|
    ensures Hyphenated(chars, s[k..m])
  {
  }

  lemma {:induction false} StripLeftHyphenated(chars: Chars, s: string, p: char -> bool)
    requires Hyphenated(chars, s)
    ensures Hyphenated(chars, StripLeft(s, p))
    ensures StripLeft(s, p) != [] ==> !p(StripLeft(s, p)[0])
  {
    if s != [] && p(s[0]) {
      HyphenatedSlice(chars, s, 1, |s|);
      StripLeftHyphenated(chars, s[1..], p);
    }
  }

  lemma {:induction false} StripRightHyphenated(chars: Chars, s: string, p: char -> bool)
    requires Hyphenated(chars, s)
    ensures Hyphenated(chars, StripRight(s, p))
    ensures StripRight(s, p) != [] ==> StripRight(s, p)[0] == s[0] && !p(StripRight(s, p)[|StripRight(s, p)| - 1])
  {
    if s != [] && p(s[|s| - 1]) {
      HyphenatedSlice(chars, s, 0, |s| - 1);
      StripRightHyphenated(chars, s[..|s| - 1], p);
    }
  }

  /** slugify always produces a slug (possibly empty). */
  lemma {:induction false} SlugifyShape(chars: Chars, s: string)
    requires !chars.isAlnum('-')
    ensures IsSlug(chars, Slugify(chars, s))
  {
    var text := chars.lower(StripRight(StripLeft(s, chars.isSpace), chars.isSpace));
    var isHyphen := (c: char) => c == '-';
    HyphenateShape(chars, text);
    var left := StripLeft(Hyphenate(chars, text).0, isHyphen);
    StripLeftHyphenated(chars, Hyphenate(chars, text).0, isHyphen);
    StripRightHyphenated(chars, left, isHyphen);
  }

  lemma {:induction false} HyphenateLetters(chars: Chars, text: string)
    requires !chars.isAlnum('-')
    ensures Filter(Hyphenate(chars, text).0, chars.isAlnum) == Filter(text, chars.isAlnum)
  {
    if text != [] {
      var init, c := text[..|text| - 1], text[|text| - 1];
      HyphenateLetters(chars, init);
      var parts := Hyphenate(chars, init).0;
      Snoc(text);
      FilterSnoc(init, c, chars.isAlnum);
      FilterSnoc(parts, c, chars.isAlnum);
      FilterSnoc(parts, '-', chars.isAlnum);
    }
  }

  lemma {:induction false} StripLeftLetters(chars: Chars, s: string, p: char -> bool)
    requires forall c :: p(c) ==> !chars.isAlnum(c)
    ensures Filter(StripLeft(s, p), chars.isAlnum) == Filter(s, chars.isAlnum)
  {
    if s != [] && p(s[0]) {
      FilterCons(s, chars.isAlnum);
      StripLeftLetters(chars, s[1..], p);
    }
  }

  lemma {:induction false} StripRightLetters(chars: Chars, s: string, p: char -> bool)
    requires forall c :: p(c) ==> !chars.isAlnum(c)
    ensures Filter(StripRight(s, p), chars.isAlnum) == Filter(s, chars.isAlnum)
  {
    if s != [] && p(s[|s| - 1]) {
      var init, last := s[..|s| - 1], s[|s| - 1];
      StripRightLetters(chars, init, p);
      Snoc(s);
      FilterSnoc(init, last, chars.isAlnum);
    }
  }

  /** slugify keeps just the alphanumeric characters of the lower-cased text, in order: with the
      shape of its result, only the places of the hyphens are left open. */
  lemma {:induction false} SlugifyLetters(chars: Chars, s: string)
    requires !chars.isAlnum('-')
    ensures var text := chars.lower(StripRight(StripLeft(s, chars.isSpace), chars.isSpace));
      Filter(Slugify(chars, s), chars.isAlnum) == Filter(text, chars.isAlnum)
  {
    var text := chars.lower(StripRight(StripLeft(s, chars.isSpace), chars.isSpace));
    var isHyphen := (c: char) => c == '-';
    HyphenateLetters(chars, text);
    StripLeftLetters(chars, Hyphenate(chars, text).0, isHyphen);
    StripRightLetters(chars, StripLeft(Hyphenate(chars, text).0, isHyphen), isHyphen);
  }

  lemma {:induction false} HyphenateSlug(chars: Chars, s: string)
    requires !chars.isAlnum('-') && Hyphenated(chars, s)
    ensures Hyphenate(chars, s) == (s, s != [] && s[|s| - 1] == '-')
  {
    if s != [] {
      HyphenatedSlice(chars, s, 0, |s| - 1);
      HyphenateSlug(chars, s[..|s| - 1]);
      Snoc(s);
    }
  }

  /** slugify leaves a slug that is in lower case as it is. */
  lemma {:induction false} SlugifySlug(chars: Chars, s: string)
    requires !chars.isAlnum('-') && IsSlug(chars, s) && chars.lower(s) == s
    requires forall c :: chars.isSpace(c) ==> !chars.isAlnum(c) && c != '-'
    ensures Slugify(chars, s) == s
  {
    HyphenateSlug(chars, s);
    if s != [] {
      assert s[0] in s && s[|s| - 1] in s;
    }
  }

  // ---- suffixes --------------------------------------------------------------------

  function Digit(d: nat): char
    requires d < 10
  {
    "0123456789"[d]
  }

  /** `str(n)` */
  function Decimal(n: nat): (s: string)
    ensures s != []
  {
    if n < 10 then [Digit(n)] else Decimal(n / 10) + [Digit(n % 10)]
  }

  /** The number that decimal digits stand for. */
  function Parsed(s: string): int {
    if s == [] then 0 else Parsed(s[..|s| - 1]) * 10 + (s[|s| - 1] as int - '0' as int)
  }

  lemma {:induction false} DigitParses(d: nat)
    requires d < 10
    ensures Digit(d) as int == '0' as int + d
  {
    assert d in {0, 1, 2, 3, 4, 5, 6, 7, 8, 9};
  }

  /** The digits of a number stand for it, the first one not a zero unless the number is. */
  lemma {:induction false} DecimalParses(n: nat)
    ensures Parsed(Decimal(n)) == n
    ensures Decimal(n)[0] == '0' ==> n == 0
  {
    var s := Decimal(n);
    if n < 10 {
      DigitParses(n);
      assert s[..0] == [];
    } else {
      DecimalParses(n / 10);
      DigitParses(n % 10);
      assert s[..|s| - 1] == Decimal(n / 10);
    }
  }

  lemma {:induction false} DecimalInjective(m: nat, n: nat)
    requires Decimal(m) == Decimal(n)
    ensures m == n
  {
    var a, b := Decimal(m), Decimal(n);
    assert a[|a| - 1] == Digit(m % 10) && b[|b| - 1] == Digit(n % 10);
    if m >= 10 && n >= 10 {
      assert a[..|a| - 1] == Decimal(m / 10) && b[..|b| - 1] == Decimal(n / 10);
      DecimalInjective(m / 10, n / 10);
    }
  }

  /** The n-th candidate: no number for the first, then -2, -3, ... */
  function Candidate(base: string, nameSlug: string, n: nat): string {
    base + "-" + nameSlug + if n < 2 then "" else "-" + Decimal(n)
  }

  lemma {:induction false} CandidatesDiffer(base: string, nameSlug: string, m: nat, n: nat)
    requires 1 <= m < n
    ensures Candidate(base, nameSlug, m) != Candidate(base, nameSlug, n)
  {
    var stem := base + "-" + nameSlug;
    var a, b := Candidate(base, nameSlug, m), Candidate(base, nameSlug, n);
    assert a[|stem|..] == if m < 2 then "" else "-" + Decimal(m);
    assert b[|stem|..] == "-" + Decimal(n);
    if a == b {
      assert ("-" + Decimal(m))[1..] == Decimal(m) && ("-" + Decimal(n))[1..] == Decimal(n);
      DecimalInjective(m, n);
    }
  }

  /** Taken slugs that later candidates could still run into. */
  ghost function Ahead(taken: set<string>, base: string, nameSlug: string, n: nat): set<string> {
    taken - set k | 1 <= k < n :: Candidate(base, nameSlug, k)
  }

  lemma {:induction false} AheadShrinks(taken: set<string>, base: string, nameSlug: string, n: nat)
    requires n >= 1 && Candidate(base, nameSlug, n) in taken
    ensures Ahead(taken, base, nameSlug, n + 1) < Ahead(taken, base, nameSlug, n)
  {
    var c := Candidate(base, nameSlug, n);
    forall k | 1 <= k < n ensures Candidate(base, nameSlug, k) != c {
      CandidatesDiffer(base, nameSlug, k, n);
    }
    assert c in Ahead(taken, base, nameSlug, n);
    assert c !in Ahead(taken, base, nameSlug, n + 1);
  }

  /** The number of the first free candidate from n on. The search always ends, because the
      candidates are pairwise different and only finitely many slugs are taken. */
  function FirstFree(taken: map<string, string>, base: string, nameSlug: string, n: nat): (k: nat)
    requires n >= 1
    ensures k >= n && Candidate(base, nameSlug, k) !in taken
    ensures forall j :: n <= j < k ==> Candidate(base, nameSlug, j) in taken
    decreases Ahead(taken.Keys, base, nameSlug, n)
  {
    if Candidate(base, nameSlug, n) in taken then
      AheadShrinks(taken.Keys, base, nameSlug, n);
      FirstFree(taken, base, nameSlug, n + 1)
    else n
  }

  // ---- assignment ------------------------------------------------------------------

  datatype Item = Item(name: string, title: string, role: string)

  /** `_assign` part way: the owner of each taken slug and the slugs given so far. */
  datatype Assignment = Assignment(taken: map<string, string>, slugs: seq<string>)

  datatype Collision =
    | EmptySlug(name: string)
    | ReservedSlug(slug: string, name: string)
    | DuplicatePersona(base: string, name: string, count: nat)

  class AgentSlugIndex {
    const chars: Chars
    const items: seq<Item>
    const reserved: seq<string>

    constructor (chars: Chars, items: seq<Item>, reserved: seq<string> := BUILTIN_AGENT_SLUGS)
      ensures this.chars == chars && this.items == items && this.reserved == reserved
    {
      this.chars, this.items, this.reserved := chars, items, reserved;
    }

    function SlugFor(item: Item): string {
      if item.title in EXECUTIVE_SLUGS then EXECUTIVE_SLUGS[item.title]
      else if item.title != "" then Slugify(chars, item.title)
      else if item.role != "" then Slugify(chars, item.role)
      else Slugify(chars, item.name)
    }

    /** The slug for the next item. */
    function NextSlug(a: Assignment, item: Item): string {
      var base := SlugFor(item);
      if base == "" || base in reserved || base !in a.taken || a.taken[base] == item.name then base
      else Candidate(base, Slugify(chars, item.name), FirstFree(a.taken, base, Slugify(chars, item.name), 1))
    }

    /** Whether the next item claims a base slug that its own name holds already. */
    predicate SamePersonaAgain(a: Assignment, item: Item) {
      var base := SlugFor(item);
      base != "" && base !in reserved && base in a.taken && a.taken[base] == item.name
    }

    function AssignNext(a: Assignment, item: Item): Assignment {
      var slug := NextSlug(a, item);
      var base := SlugFor(item);
      var unclaimed := base == "" || base in reserved || SamePersonaAgain(a, item);
      Assignment(if unclaimed then a.taken else a.taken[slug := item.name], a.slugs + [slug])
    }

    /** The state after the first n items. */
    function AssignFirst(n: nat): (a: Assignment)
      requires n <= |items|
      ensures |a.slugs| == n
    {
      if n == 0 then Assignment(map[], []) else AssignNext(AssignFirst(n - 1), items[n - 1])
    }

    /** The suffix search of `_assign` */
    method FreeCandidate(taken: map<string, string>, base: string, nameSlug: string) returns (candidate: string)
      ensures candidate == Candidate(base, nameSlug, FirstFree(taken, base, nameSlug, 1))
    {
      candidate := Candidate(base, nameSlug, 1);
      var n := 1;
      while candidate in taken
        invariant n >= 1 && candidate == Candidate(base, nameSlug, n)
        invariant FirstFree(taken, base, nameSlug, 1) == FirstFree(taken, base, nameSlug, n)
        decreases Ahead(taken.Keys, base, nameSlug, n)
      {
        AheadShrinks(taken.Keys, base, nameSlug, n);
        n := n + 1;
        candidate := base + "-" + nameSlug + "-" + Decimal(n);
        assert candidate == Candidate(base, nameSlug, n);
      }
    }

    /** `_assign` and `resolved_slugs` */
    method ResolvedSlugs() returns (slugs: seq<string>)
      ensures slugs == AssignFirst(|items|).slugs
    {
      var taken: map<string, string> := map[];
      slugs := [];
      for i := 0 to |items|
        invariant Assignment(taken, slugs) == AssignFirst(i)
      {
        var slug;
        ghost var before := Assignment(taken, slugs);
        slug, taken := AssignItem(taken, slugs, items[i]);
        slugs := slugs + [slug];
        assert Assignment(taken, slugs) == AssignNext(before, items[i]);
      }
    }

    /** One round of the loop of `_assign`. */
    method AssignItem(taken: map<string, string>, ghost slugs: seq<string>, item: Item)
        returns (slug: string, taken': map<string, string>)
      ensures Assignment(taken', slugs + [slug]) == AssignNext(Assignment(taken, slugs), item)
    {
      var base := SlugFor(item);
      if base == "" || base in reserved {
        return base, taken;
      }
      if base !in taken {
        return base, taken[base := item.name];
      }
      if taken[base] == item.name {
        return base, taken;
      }
      var nameSlug := Slugify(chars, item.name);
      slug := FreeCandidate(taken, base, nameSlug);
      taken' := taken[slug := item.name];
    }

    /** The personas' claims: each item's name with its base slug. */
    function Claims(n: nat): (keys: seq<(string, string)>)
      requires n <= |items|
    {
      seq(n, i requires 0 <= i < n => (items[i].name, SlugFor(items[i])))
    }

    /** What is wrong with one resolved slug, if anything. */
    function Complaint(item: Item, slug: string): seq<Collision> {
      if slug == "" then [EmptySlug(item.name)]
      else if slug in reserved then [ReservedSlug(slug, item.name)]
      else []
    }

    function Complaints(slugs: seq<string>, n: nat): seq<Collision>
      requires n <= |slugs| <= |items|
    {
      if n == 0 then [] else Complaints(slugs, n - 1) + Complaint(items[n - 1], slugs[n - 1])
    }

    /** `collisions`: the complaints in item order, and the claims made more than once with their
        counts (the source prints those sorted). */
    method Collisions() returns (messages: seq<Collision>, repeated: map<(string, string), nat>)
      ensures messages == Complaints(AssignFirst(|items|).slugs, |items|)
      ensures forall k :: k in repeated <==> k.1 != "" && Count(Claims(|items|), k) > 1
      ensures forall k :: k in repeated ==> repeated[k] == Count(Claims(|items|), k)
    {
      var slugs := ResolvedSlugs();
      messages := [];
      for i := 0 to |items|
        invariant messages == Complaints(slugs, i)
      {
        if slugs[i] == "" {
          messages := messages + [EmptySlug(items[i].name)];
        } else if slugs[i] in reserved {
          messages := messages + [ReservedSlug(slugs[i], items[i].name)];
        }
      }
      var baseCounts := CountClaims();
      repeated := map k | k in baseCounts && baseCounts[k] > 1 :: baseCounts[k];
    }

    method CountClaims() returns (baseCounts: map<(string, string), nat>)
      ensures forall k :: k in baseCounts <==> k.1 != "" && Count(Claims(|items|), k) > 0
      ensures forall k :: k in baseCounts ==> baseCounts[k] == Count(Claims(|items|), k)
    {
      baseCounts := map[];
      for i := 0 to |items|
        invariant ClaimsCounted(baseCounts, i)
      {
        baseCounts := CountClaim(baseCounts, i);
      }
    }

    /** The claims of the first i items on a base slug are counted. */
    ghost predicate ClaimsCounted(baseCounts: map<(string, string), nat>, i: nat)
      requires i <= |items|
    {
      && (forall k :: k in baseCounts <==> k.1 != "" && Count(Claims(i), k) > 0)
      && (forall k :: k in baseCounts ==> baseCounts[k] == Count(Claims(i), k))
    }

    method CountClaim(baseCounts: map<(string, string), nat>, i: nat) returns (after: map<(string, string), nat>)
      requires i < |items| && ClaimsCounted(baseCounts, i)
      ensures ClaimsCounted(after, i + 1)
    {
      var base := SlugFor(items[i]);
      var key := (items[i].name, base);
      ClaimNext(i);
      after := baseCounts;
      if base != "" {
        after := baseCounts[key := (if key in baseCounts then baseCounts[key] else 0) + 1];
      }
    }

    lemma {:induction false} ClaimNext(i: nat)
      requires i < |items|
      ensures forall k ::
        Count(Claims(i + 1), k) == Count(Claims(i), k) + (if k == (items[i].name, SlugFor(items[i])) then 1 else 0)
    {
      var key := (items[i].name, SlugFor(items[i]));
      assert Claims(i + 1) == Claims(i) + [key];
      forall k ensures Count(Claims(i + 1), k) == Count(Claims(i), k) + if k == key then 1 else 0 {
        CountAppend(Claims(i), [key], k);
      }
    }

    // ---- what an empty collision report means ---------------------------------------

    ghost predicate Usable(slug: string) {
      slug != "" && slug !in reserved
    }

    ghost predicate SameClaim(i: nat, j: nat)
      requires i < |items| && j < |items|
    {
      items[i].name == items[j].name && SlugFor(items[i]) == SlugFor(items[j])
    }

    /** Nothing to report: every slug is usable and no one claims the same base slug twice. */
    ghost predicate CollisionFree() {
      && AllUsable(AssignFirst(|items|).slugs)
      && NoClaimTwice()
    }

    ghost predicate AllUsable(slugs: seq<string>) {
      UsableUpTo(slugs, |slugs|)
    }

    ghost predicate NoClaimTwice() {
      forall i, j :: 0 <= i < j < |items| && SameClaim(i, j) ==> SlugFor(items[i]) == ""
    }

    /** The report is empty exactly when there is nothing to report. */
    lemma {:induction false} CollisionsExact(messages: seq<Collision>, repeated: map<(string, string), nat>)
      requires messages == Complaints(AssignFirst(|items|).slugs, |items|)
      requires forall k :: k in repeated <==> k.1 != "" && Count(Claims(|items|), k) > 1
      ensures messages == [] && repeated == map[] <==> CollisionFree()
    {
      ComplaintsEmpty(AssignFirst(|items|).slugs, |items|);
      var keys := Claims(|items|);
      if repeated == map[] {
        forall i, j | 0 <= i < j < |items| && SameClaim(i, j)
          ensures SlugFor(items[i]) == ""
        {
          CountTwice(keys, i, j);
          assert keys[i] !in repeated;
        }
      }
      if k :| k in repeated {
        var i, j := TwoOccurrences(keys, k);
        assert SameClaim(i, j);
        assert !CollisionFree();
      }
    }

    lemma {:induction false} ComplaintsEmpty(slugs: seq<string>, n: nat)
      requires n <= |slugs| <= |items|
      ensures NoComplaint(slugs, n) <==> UsableUpTo(slugs, n)
    {
      if n == 0 {
        NothingComplained(slugs);
      } else {
        var m := n - 1;
        ComplaintsEmpty(slugs, m);
        BothNext(slugs, m);
      }
    }

    lemma {:induction false} NothingComplained(slugs: seq<string>)
      requires |slugs| <= |items|
      ensures NoComplaint(slugs, 0) && UsableUpTo(slugs, 0)
    {
    }

    lemma {:induction false} BothNext(slugs: seq<string>, n: nat)
      requires n < |slugs| <= |items|
      ensures (NoComplaint(slugs, n) <==> UsableUpTo(slugs, n)) ==>
        (NoComplaint(slugs, n + 1) <==> UsableUpTo(slugs, n + 1))
    {
      ComplaintsNext(slugs, n);
      UsableNext(slugs, n);
    }

    ghost predicate NoComplaint(slugs: seq<string>, n: nat)
      requires n <= |slugs| <= |items|
    {
      Complaints(slugs, n) == []
    }

    lemma {:induction false} ComplaintsNext(slugs: seq<string>, n: nat)
      requires n < |slugs| <= |items|
      ensures NoComplaint(slugs, n + 1) <==> NoComplaint(slugs, n) && Usable(slugs[n])
    {
      ComplaintEmpty(items[n], slugs[n]);
      EmptyConcat(Complaints(slugs, n), Complaint(items[n], slugs[n]));
    }

    lemma {:induction false} ComplaintEmpty(item: Item, slug: string)
      ensures Complaint(item, slug) == [] <==> Usable(slug)
    {
    }

    ghost predicate UsableUpTo(slugs: seq<string>, n: nat)
      requires n <= |slugs|
    {
      forall i :: 0 <= i < n ==> Usable(slugs[i])
    }

    lemma {:induction false} UsableNext(slugs: seq<string>, n: nat)
      requires n < |slugs|
      ensures UsableUpTo(slugs, n + 1) <==> UsableUpTo(slugs, n) && Usable(slugs[n])
    {
    }

    // ---- which slug an item gets ------------------------------------------------------

    /** An executive title has its fixed slug; otherwise the slug is made of the title, or the role if
        there is no title, or the name if there is neither. */
    lemma {:induction false} BaseSlugExactly(item: Item)
      ensures item.title in EXECUTIVE_SLUGS ==> SlugFor(item) == EXECUTIVE_SLUGS[item.title]
      ensures item.title !in EXECUTIVE_SLUGS && item.title != "" ==> SlugFor(item) == Slugify(chars, item.title)
      ensures item.title == "" && item.role != "" ==> SlugFor(item) == Slugify(chars, item.role)
      ensures item.title == "" && item.role == "" ==> SlugFor(item) == Slugify(chars, item.name)
    {
      assert forall t :: t in EXECUTIVE_SLUGS ==> |t| > 0;
    }

    /** An item with a usable base slug has this slug. */
    ghost predicate GivenAt(slugs: seq<string>, j: nat, s: string)
      requires j < |slugs| <= |items|
    {
      Usable(SlugFor(items[j])) && slugs[j] == s
    }

    ghost predicate GivenBefore(slugs: seq<string>, n: nat, s: string)
      requires n <= |slugs| <= |items|
    {
      exists j :: 0 <= j < n && GivenAt(slugs, j, s)
    }

    ghost predicate TakenAre(a: Assignment, n: nat)
      requires n <= |items| && |a.slugs| == n
    {
      forall s :: s in a.taken <==> GivenBefore(a.slugs, n, s)
    }

    /** Every taken slug is under the name of each item that has it. */
    ghost predicate OwnersAre(a: Assignment, n: nat)
      requires n <= |items| && |a.slugs| == n
    {
      forall j, s :: 0 <= j < n && GivenAt(a.slugs, j, s) ==> s in a.taken && a.taken[s] == items[j].name
    }

    ghost predicate OwnersKept(a: Assignment, n: nat)
      requires n <= |items| && |a.slugs| == n
    {
      TakenAre(a, n) && OwnersAre(a, n)
    }

    lemma {:induction false} SameGivenAt(slugs: seq<string>, earlier: seq<string>, j: nat, s: string)
      requires j < |earlier| && earlier <= slugs && |slugs| <= |items|
      ensures GivenAt(slugs, j, s) <==> GivenAt(earlier, j, s)
    {
    }

    lemma {:induction false} SameGiven(slugs: seq<string>, earlier: seq<string>, i: nat, s: string)
      requires i <= |earlier| && earlier <= slugs && |slugs| <= |items|
      ensures GivenBefore(slugs, i, s) <==> GivenBefore(earlier, i, s)
    {
      forall j | 0 <= j < i ensures GivenAt(slugs, j, s) <==> GivenAt(earlier, j, s) {
        SameGivenAt(slugs, earlier, j, s);
      }
    }

    /** An item with a usable base slug has its slug taken under its name, which no other name had;
        any other item takes none. */
    lemma {:induction false} NextTakes(a: Assignment, item: Item)
      ensures var after, slug := AssignNext(a, item), NextSlug(a, item);
        && after.slugs == a.slugs + [slug]
        && (slug in a.taken && Usable(SlugFor(item)) ==> a.taken[slug] == item.name)
        && after.taken == (if Usable(SlugFor(item)) then a.taken[slug := item.name] else a.taken)
    {
    }

    lemma {:induction false} TakenNext(a: Assignment, after: Assignment, n: nat, slug: string)
      requires n < |items| && |a.slugs| == n && TakenAre(a, n) && after.slugs == a.slugs + [slug]
      requires after.taken.Keys == a.taken.Keys + if Usable(SlugFor(items[n])) then {slug} else {}
      ensures TakenAre(after, n + 1)
    {
      forall s ensures s in after.taken <==> GivenBefore(after.slugs, n + 1, s) {
        SameGiven(after.slugs, a.slugs, n, s);
        assert s in a.taken <==> GivenBefore(a.slugs, n, s);
        assert GivenBefore(after.slugs, n + 1, s) <==> GivenBefore(after.slugs, n, s) || GivenAt(after.slugs, n, s);
      }
    }

    lemma {:induction false} OwnersNext(a: Assignment, after: Assignment, n: nat, slug: string)
      requires n < |items| && |a.slugs| == n && OwnersAre(a, n) && after.slugs == a.slugs + [slug]
      requires var usable := Usable(SlugFor(items[n]));
        && (usable && slug in a.taken ==> a.taken[slug] == items[n].name)
        && after.taken == (if usable then a.taken[slug := items[n].name] else a.taken)
      ensures OwnersAre(after, n + 1)
    {
      forall j, s | 0 <= j < n + 1 && GivenAt(after.slugs, j, s)
        ensures s in after.taken && after.taken[s] == items[j].name
      {
        if j < n {
          SameGivenAt(after.slugs, a.slugs, j, s);
        }
      }
    }

    /** The taken slugs are those given to items with a usable base slug, under their names. */
    lemma {:induction false} TakenExactly(n: nat)
      requires n <= |items|
      ensures OwnersKept(AssignFirst(n), n)
    {
      if n > 0 {
        TakenExactly(n - 1);
        var a := AssignFirst(n - 1);
        NextTakes(a, items[n - 1]);
        TakenNext(a, AssignFirst(n), n - 1, NextSlug(a, items[n - 1]));
        OwnersNext(a, AssignFirst(n), n - 1, NextSlug(a, items[n - 1]));
      }
    }

    /** The stem with the first number from 2 on that makes a slug no earlier item has. */
    ghost predicate Numbered(slugs: seq<string>, i: nat, stem: string, k: nat)
      requires i < |slugs| <= |items|
    {
      && k >= 2 && slugs[i] == stem + "-" + Decimal(k) && !GivenBefore(slugs, i, slugs[i])
      && forall m :: 2 <= m < k ==> GivenBefore(slugs, i, stem + "-" + Decimal(m))
    }

    /** No earlier item of another name has the slug. */
    ghost predicate FreeFor(slugs: seq<string>, i: nat, s: string)
      requires i < |slugs| <= |items|
    {
      forall j :: 0 <= j < i && GivenAt(slugs, j, s) ==> items[j].name == items[i].name
    }

    /** What the i-th item gets, seen from the slugs alone: its base slug if that is empty or reserved,
        or no earlier item of another name has it; otherwise the base slug with its name's slug, and
        with a number if an earlier item has that, too. */
    lemma {:induction false} SlugsExactly(i: nat)
      requires i < |items|
      ensures var slugs := AssignFirst(|items|).slugs;
        var base := SlugFor(items[i]);
        var stem := base + "-" + Slugify(chars, items[i].name);
        if !Usable(base) || FreeFor(slugs, i, base) then slugs[i] == base
        else if !GivenBefore(slugs, i, stem) then slugs[i] == stem
        else exists k :: Numbered(slugs, i, stem, k)
    {
      var slugs, a := AssignFirst(|items|).slugs, AssignFirst(i);
      var base, nameSlug := SlugFor(items[i]), Slugify(chars, items[i].name);
      var stem := base + "-" + nameSlug;
      EarlierSlugs(i, |items|);
      EarlierSlugs(i + 1, |items|);
      TakenExactly(i);
      assert slugs[i] == slugs[..i + 1][i] == NextSlug(a, items[i]);
      forall s ensures s in a.taken <==> GivenBefore(slugs, i, s) {
        SameGiven(slugs, a.slugs, i, s);
      }
      if Usable(base) {
        FreeExactly(slugs, a, i, base);
        if !FreeFor(slugs, i, base) {
          NumberedExactly(slugs, a, i, base, nameSlug);
        }
      }
    }

    lemma {:induction false} FreeExactly(slugs: seq<string>, a: Assignment, i: nat, base: string)
      requires i < |slugs| <= |items| && a.slugs == slugs[..i] && OwnersKept(a, i)
      ensures FreeFor(slugs, i, base) <==> base !in a.taken || a.taken[base] == items[i].name
    {
      forall j | 0 <= j < i ensures GivenAt(slugs, j, base) <==> GivenAt(a.slugs, j, base) {
        SameGivenAt(slugs, a.slugs, j, base);
      }
      if base in a.taken {
        assert GivenBefore(a.slugs, i, base);
        var j :| 0 <= j < i && GivenAt(a.slugs, j, base);
        assert GivenAt(slugs, j, base) && a.taken[base] == items[j].name;
      }
    }

    lemma {:induction false} NumberedExactly(slugs: seq<string>, a: Assignment, i: nat, base: string, nameSlug: string)
      requires i < |slugs| <= |items|
      requires forall s :: s in a.taken <==> GivenBefore(slugs, i, s)
      requires slugs[i] == Candidate(base, nameSlug, FirstFree(a.taken, base, nameSlug, 1))
      ensures var stem := base + "-" + nameSlug;
        if !GivenBefore(slugs, i, stem) then slugs[i] == stem else exists k :: Numbered(slugs, i, stem, k)
    {
      var stem, k := base + "-" + nameSlug, FirstFree(a.taken, base, nameSlug, 1);
      assert Candidate(base, nameSlug, 1) == stem + "" == stem;
      if GivenBefore(slugs, i, stem) {
        forall m | 2 <= m <= k ensures Candidate(base, nameSlug, m) == stem + "-" + Decimal(m) {
          assert stem + ("-" + Decimal(m)) == stem + "-" + Decimal(m);
        }
        assert Numbered(slugs, i, stem, k);
      }
    }

    /** The messages: one for each item whose slug is empty or reserved, naming it. */
    lemma {:induction false} ComplaintsExactly(slugs: seq<string>, n: nat, m: Collision)
      requires n <= |slugs| <= |items|
      ensures m in Complaints(slugs, n) <==> exists i :: 0 <= i < n && ComplainsOf(slugs, i, m)
    {
      if n > 0 {
        ComplaintsExactly(slugs, n - 1, m);
        assert m in Complaint(items[n - 1], slugs[n - 1]) <==> ComplainsOf(slugs, n - 1, m);
      }
    }

    ghost predicate ComplainsOf(slugs: seq<string>, i: nat, m: Collision)
      requires i < |slugs| <= |items|
    {
      || (slugs[i] == "" && m == EmptySlug(items[i].name))
      || (slugs[i] != "" && slugs[i] in reserved && m == ReservedSlug(slugs[i], items[i].name))
    }

    // ---- distinctness -----------------------------------------------------------------

    /** Usable slugs given so far are exactly the usable taken ones, each owned by an earlier name. */
    lemma {:induction false} TakenAreGiven(n: nat)
      requires n <= |items|
      ensures forall s :: Usable(s) ==> (s in AssignFirst(n).slugs <==> s in AssignFirst(n).taken)
      ensures forall s :: s in AssignFirst(n).taken ==> OwnedBefore(AssignFirst(n).taken[s], n)
    {
      if n > 0 {
        TakenAreGiven(n - 1);
        var a := AssignFirst(n - 1);
        forall s | s in AssignFirst(n).taken ensures OwnedBefore(AssignFirst(n).taken[s], n) {
          if s in a.taken && AssignFirst(n).taken[s] == a.taken[s] {
            assert OwnedBefore(a.taken[s], n - 1);
          } else {
            assert AssignFirst(n).taken[s] == items[n - 1].name;
          }
        }
      }
    }

    ghost predicate OwnedBefore(name: string, n: nat)
      requires n <= |items|
    {
      exists i :: 0 <= i < n && items[i].name == name
    }

    ghost predicate Again(j: nat)
      requires j < |items|
    {
      SamePersonaAgain(AssignFirst(j), items[j])
    }

    lemma {:induction false} EarlierSlugs(m: nat, n: nat)
      requires m <= n <= |items|
      ensures AssignFirst(n).slugs[..m] == AssignFirst(m).slugs
    {
      if m < n {
        EarlierSlugs(m, n - 1);
        assert AssignFirst(n).slugs[..m] == AssignFirst(n - 1).slugs[..m];
      } else {
        TakeAll(AssignFirst(n).slugs);
      }
    }

    /** An item's usable slug is new unless it repeats its own name's claim. */
    lemma {:induction false} RepeatsExactly(j: nat)
      requires j < |items| && Usable(AssignFirst(|items|).slugs[j])
      ensures Repeats(AssignFirst(|items|).slugs, j) <==> Again(j)
    {
      EarlierSlugs(j, |items|);
      EarlierSlugs(j + 1, |items|);
      var slug := AssignFirst(|items|).slugs[j];
      assert slug == AssignFirst(|items|).slugs[..j + 1][j] == NextSlug(AssignFirst(j), items[j]);
      TakenAreGiven(j);
    }

    /** With an empty report the slugs are pairwise distinct exactly when no item takes the
        branch for a persona that already owns its base slug. */
    lemma {:induction false} DistinctExactly()
      requires CollisionFree()
      ensures Distinct(AssignFirst(|items|).slugs) <==> forall j :: 0 <= j < |items| ==> !Again(j)
    {
      var slugs := AssignFirst(|items|).slugs;
      forall j | 0 <= j < |items| ensures Repeats(slugs, j) <==> Again(j) {
        assert Usable(slugs[j]);
        RepeatsExactly(j);
      }
      DistinctByPrefix(slugs);
    }

    ghost predicate DistinctNames() {
      forall i, j :: 0 <= i < j < |items| ==> items[i].name != items[j].name
    }

    lemma {:induction false} NeverAgain(j: nat)
      requires DistinctNames() && j < |items|
      ensures !Again(j)
    {
      TakenAreGiven(j);
      assert !OwnedBefore(items[j].name, j);
    }

    /** With pairwise distinct names, two items share a slug only if it is empty or reserved. */
    lemma {:induction false} UsableSlugsDiffer(i: nat, j: nat)
      requires DistinctNames() && i < j < |items|
      requires Usable(AssignFirst(|items|).slugs[j])
      ensures AssignFirst(|items|).slugs[i] != AssignFirst(|items|).slugs[j]
    {
      NeverAgain(j);
      RepeatsExactly(j);
      assert AssignFirst(|items|).slugs[..j][i] == AssignFirst(|items|).slugs[i];
    }

    /** The promise of the slug index: distinct names and an empty report give every item its own
        non-empty slug that shadows no built-in agent. */
    lemma {:induction false} SlugsAreUnique()
      requires DistinctNames() && CollisionFree()
      ensures Distinct(AssignFirst(|items|).slugs)
      ensures forall s :: s in AssignFirst(|items|).slugs ==> s != "" && s !in reserved
    {
      forall j | 0 <= j < |items| ensures !Again(j) { NeverAgain(j); }
      DistinctExactly();
    }
  }

  ghost predicate Repeats<T(!new)>(s: seq<T>, j: nat)
    requires j < |s|
  {
    s[j] in s[..j]
  }

  lemma {:induction false} DistinctByPrefix<T(!new)>(s: seq<T>)
    ensures Distinct(s) <==> forall j :: 0 <= j < |s| ==> !Repeats(s, j)
  {
    if !Distinct(s) {
      var i, j :| 0 <= i < j < |s| && s[i] == s[j];
      assert s[..j][i] == s[j];
      assert Repeats(s, j);
    }
  }

  lemma {:induction false} EmptyConcat<T>(s: seq<T>, t: seq<T>)
    ensures s + t == [] <==> s == [] && t == []
  {
    assert |s + t| == |s| + |t|;
  }

  lemma {:induction false} CountTwice<T>(s: seq<T>, i: nat, j: nat)
    requires i < j < |s| && s[i] == s[j]
    ensures Count(s, s[i]) > 1
  {
    assert s == s[..j] + s[j..];
    CountAppend(s[..j], s[j..], s[i]);
    assert s[..j][i] in s[..j] && s[j..][0] in s[j..];
    CountPositive(s[..j], s[i]);
    CountPositive(s[j..], s[i]);
  }

  lemma {:induction false} TwoOccurrences<T>(s: seq<T>, x: T) returns (i: nat, j: nat)
    requires Count(s, x) > 1
    ensures i < j < |s| && s[i] == s[j] == x
  {
    if s[0] == x {
      CountPositive(s[1..], x);
      i := 0;
      j :| 1 <= j < |s| && s[j] == x;
    } else {
      i, j := TwoOccurrences(s[1..], x);
      i, j := i + 1, j + 1;
    }
  }

  // ---- names must differ -----------------------------------------------------------

  /** What Python's character tables say about the three strings used below. */
  ghost predicate UsualTables(chars: Chars) {
    && chars.isAlnum('t') && chars.isAlnum('n') && !chars.isAlnum(' ')
    && !chars.isSpace('T') && !chars.isSpace('N')
    && chars.lower("T") == "t" && chars.lower("N") == "n" && chars.lower("T N") == "t n"
  }

  /** A string with nothing to strip at either end keeps only its lower-casing and hyphenation. */
  lemma {:induction false} SlugifyUnstripped(chars: Chars, s: string)
    requires s != [] && !chars.isSpace(s[0]) && !chars.isSpace(s[|s| - 1])
    requires var h := Hyphenate(chars, chars.lower(s)).0; h != [] && h[0] != '-' && h[|h| - 1] != '-'
    ensures Slugify(chars, s) == Hyphenate(chars, chars.lower(s)).0
  {
  }

  lemma {:induction false} HyphenateNext(chars: Chars, text: string, c: char)
    ensures var (parts, prevSep) := Hyphenate(chars, text);
      Hyphenate(chars, text + [c])
        == if chars.isAlnum(c) then (parts + [c], false) else (if prevSep then parts else parts + ['-'], true)
  {
    assert (text + [c])[..|text|] == text;
  }

  lemma {:induction false} HyphenateOne(chars: Chars, c: char)
    requires chars.isAlnum(c)
    ensures Hyphenate(chars, [c]) == ([c], false)
  {
    HyphenateNext(chars, [], c);
  }

  lemma {:induction false} ExampleSlugs(chars: Chars)
    requires UsualTables(chars)
    ensures Slugify(chars, "T") == "t"
    ensures Slugify(chars, "N") == "n"
    ensures Slugify(chars, "T N") == "t-n"
  {
    HyphenateOne(chars, 't');
    HyphenateOne(chars, 'n');
    SlugifyUnstripped(chars, "T");
    SlugifyUnstripped(chars, "N");
    HyphenateNext(chars, "t", ' ');
    HyphenateNext(chars, "t ", 'n');
    assert "t" + [' '] == "t " && "t " + ['n'] == "t n";
    assert "t" + ['-'] == "t-" && "t-" + ['n'] == "t-n";
    SlugifyUnstripped(chars, "T N");
  }

  /** Distinct names are needed: N owns "t-n" as the suffixed slug of the title "T" and claims it
      again as the base slug of the title "T N"; nothing is reported. */
  lemma {:induction false} SharedNameSharesSlug(index: AgentSlugIndex)
    requires UsualTables(index.chars) && index.reserved == BUILTIN_AGENT_SLUGS
    requires index.items == [Item("A", "T", ""), Item("N", "T", ""), Item("N", "T N", "")]
    ensures index.AssignFirst(3).slugs == ["t", "t-n", "t-n"]
    ensures index.CollisionFree() && !Distinct(index.AssignFirst(3).slugs)
  {
    var items := index.items;
    var a1 := Assignment(map["t" := "A"], ["t"]);
    var a2 := Assignment(map["t" := "A", "t-n" := "N"], ["t", "t-n"]);
    assert index.AssignFirst(1) == a1 by { FirstStep(index); }
    assert index.AssignFirst(2) == a2 by { SecondStep(index, a1); }
    assert index.AssignFirst(3).slugs == ["t", "t-n", "t-n"] by { ThirdStep(index, a2); }
    var slugs := index.AssignFirst(3).slugs;
    assert !Distinct(slugs) by { assert slugs[1] == slugs[2]; }
    AllUsableHere(index, slugs);
    NoClaimTwiceHere(index);
  }

  lemma {:induction false} AllUsableHere(index: AgentSlugIndex, slugs: seq<string>)
    requires index.reserved == BUILTIN_AGENT_SLUGS && slugs == ["t", "t-n", "t-n"]
    ensures index.AllUsable(slugs)
  {
    assert forall r :: r in BUILTIN_AGENT_SLUGS ==> |r| >= 4;
    forall i | 0 <= i < 3 ensures slugs[i] !in BUILTIN_AGENT_SLUGS {
      assert |slugs[i]| < 4;
    }
  }

  lemma {:induction false} NoClaimTwiceHere(index: AgentSlugIndex)
    requires UsualTables(index.chars)
    requires index.items == [Item("A", "T", ""), Item("N", "T", ""), Item("N", "T N", "")]
    ensures index.NoClaimTwice()
  {
    ExampleSlugs(index.chars);
    var items := index.items;
    assert |items[0].name| == 1 && items[0].name[0] == 'A' && items[1].name[0] == items[2].name[0] == 'N';
    assert |index.SlugFor(items[1])| == 1 && |index.SlugFor(items[2])| == 3;
    assert !index.SameClaim(0, 1) && !index.SameClaim(0, 2) && !index.SameClaim(1, 2);
    forall i, j | 0 <= i < j < 3 ensures !index.SameClaim(i, j) {
      assert (i, j) == (0, 1) || (i, j) == (0, 2) || (i, j) == (1, 2);
    }
  }

  lemma {:induction false} FirstStep(index: AgentSlugIndex)
    requires UsualTables(index.chars) && index.reserved == BUILTIN_AGENT_SLUGS
    requires |index.items| == 3 && index.items[0] == Item("A", "T", "")
    ensures index.AssignFirst(1) == Assignment(map["t" := "A"], ["t"])
  {
    ExampleSlugs(index.chars);
    assert index.AssignFirst(0) == Assignment(map[], []);
    assert index.SlugFor(index.items[0]) == "t";
    assert index.AssignNext(Assignment(map[], []), index.items[0]).slugs == ["t"];
  }

  lemma {:induction false} SecondStep(index: AgentSlugIndex, a: Assignment)
    requires UsualTables(index.chars) && index.reserved == BUILTIN_AGENT_SLUGS
    requires |index.items| == 3 && index.items[1] == Item("N", "T", "")
    requires a == Assignment(map["t" := "A"], ["t"]) && index.AssignFirst(1) == a
    ensures index.AssignFirst(2) == Assignment(map["t" := "A", "t-n" := "N"], ["t", "t-n"])
  {
    ExampleSlugs(index.chars);
    assert index.SlugFor(index.items[1]) == "t";
    assert Candidate("t", "n", 1) == "t-n";
    assert FirstFree(a.taken, "t", "n", 1) == 1;
    assert index.NextSlug(a, index.items[1]) == "t-n";
    assert index.AssignFirst(2) == index.AssignNext(a, index.items[1]);
  }

  lemma {:induction false} ThirdStep(index: AgentSlugIndex, a: Assignment)
    requires UsualTables(index.chars) && index.reserved == BUILTIN_AGENT_SLUGS
    requires |index.items| == 3 && index.items[2] == Item("N", "T N", "")
    requires a == Assignment(map["t" := "A", "t-n" := "N"], ["t", "t-n"]) && index.AssignFirst(2) == a
    ensures index.AssignFirst(3).slugs == ["t", "t-n", "t-n"]
  {
    ExampleSlugs(index.chars);
    assert index.SlugFor(index.items[2]) == "t-n";
    assert index.NextSlug(a, index.items[2]) == "t-n";
    assert index.AssignFirst(3) == index.AssignNext(a, index.items[2]);
  }
}
