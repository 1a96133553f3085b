/** `generator/renderer.py`: rendering with a cache, a time to live and a fallback engine. */
module Rendering {
  import opened Collections

  /** The renderer's surroundings: a fixed loader, deterministic engines and the digest of a
      context's JSON text. */
  datatype Settings = Settings(loader: string -> Option<string>, engine: (string, string, Id) -> Option<string>,
                               digest: Id -> string, cacheEnabled: bool, ttl: int, validation: bool,
                               fallbackEngine: string)

  /** A template that cannot be loaded leaves a variable unbound that the error handler reads. */
  datatype RenderError = TemplateUnbound | RenderFailed

  datatype Stats = Stats(total: nat, successful: nat, failed: nat, cached: nat)

  datatype State = State(contents: map<string, string>, stamps: map<string, int>, stats: Stats)

  /** One call of render; an empty engine means the fallback engine. */
  datatype Call = Call(template: string, context: Id, engine: string, cache: Option<bool>,
                       validate: Option<bool>, fallback: bool, now: int)

  // ---- cache keys --------------------------------------------------------------------------

  function Key(template: string, engine: string, digest: string): string {
    template + ":" + engine + ":" + digest
  }

  function KeyOf(cfg: Settings, template: string, engine: string, context: Id): string {
    Key(template, engine, cfg.digest(context))
  }

  predicate NoColon(s: string) { ':' !in s }

  lemma {:induction false} NoLaterColon(a: string, x: string)
    requires NoColon(x)
    ensures (a + ":" + x)[|a|] == ':'
    ensures forall k :: |a| < k <= |a| + |x| ==> (a + ":" + x)[k] != ':'
  {
    forall k | |a| < k <= |a| + |x| ensures (a + ":" + x)[k] != ':' {
      assert (a + ":" + x)[k] == x[k - |a| - 1];
    }
  }

  lemma {:induction false} LastColon(a: string, x: string, b: string, y: string)
    requires NoColon(x) && NoColon(y) && a + ":" + x == b + ":" + y
    ensures a == b && x == y
  {
    var s := a + ":" + x;
    NoLaterColon(a, x);
    NoLaterColon(b, y);
    assert |s| == |a| + 1 + |x| == |b| + 1 + |y|;
    assert |a| == |b|;
    assert a == s[..|a|] && b == s[..|a|];
    assert x == s[|a| + 1..] && y == s[|a| + 1..];
  }

  /** Keys tell templates, engines and digests apart when engines and digests hold no colon. */
  lemma {:induction false} KeysDiffer(t: string, e: string, h: string, t': string, e': string, h': string)
    requires NoColon(e) && NoColon(h) && NoColon(e') && NoColon(h')
    requires Key(t, e, h) == Key(t', e', h')
    ensures t == t' && e == e' && h == h'
  {
    LastColon(t + ":" + e, h, t' + ":" + e', h');
    LastColon(t, e, t', e');
  }

  /** With a colon in an engine's name two different requests share a key. */
  lemma {:induction false} ColonConfuses(t: string, a: string, b: string, h: string)
    ensures Key(t, a + ":" + b, h) == Key(t + ":" + a, b, h)
  {
    assert t + ":" + (a + ":" + b) == t + ":" + a + ":" + b;
  }

  predicate EndsIn(s: string, x: string) {
    |x| <= |s| && s[|s| - |x|..] == x
  }

  /** Some templates give the two engines and digests the same key. */
  ghost predicate ShareKey(e: string, h: string, e': string, h': string) {
    exists t, t' :: Key(t, e, h) == Key(t', e', h')
  }

  lemma {:induction false} LongerEnds(t: string, e: string, t': string, e': string)
    requires t + ":" + e == t' + ":" + e' && |e| >= |e'|
    ensures e == e' || EndsIn(e, ":" + e')
  {
    var s := t + ":" + e;
    var n := |e| - |e'|;
    assert e == s[|t| + 1..] && e' == s[|t'| + 1..];
    if n > 0 {
      assert s[|t'|] == ':' && e[n - 1] == s[|t'|];
      assert e[n - 1..] == [e[n - 1]] + e[n..] && e[n..] == e';
    }
  }

  lemma {:induction false} EndingShares(e: string, e': string, h: string)
    requires EndsIn(e, ":" + e')
    ensures ShareKey(e, h, e', h) && ShareKey(e', h, e, h)
  {
    var p := e[..|e| - |e'| - 1];
    assert e == p + ":" + e' by {
      assert e == p + e[|p|..];
      ConcatAssociative(p, ":", e');
    }
    ColonConfuses("", p, e', h);
    assert Key("", e, h) == Key("" + ":" + p, e', h);
  }

  /** With colon-free digests, keys of two engines can coincide exactly when the digests do and one
      engine's name is the other's or ends in a colon and the other's. */
  lemma {:induction false} KeysShareExactly(e: string, h: string, e': string, h': string)
    requires NoColon(h) && NoColon(h')
    ensures ShareKey(e, h, e', h') <==> h == h' && (e == e' || EndsIn(e, ":" + e') || EndsIn(e', ":" + e))
  {
    if ShareKey(e, h, e', h') {
      var t, t' :| Key(t, e, h) == Key(t', e', h');
      LastColon(t + ":" + e, h, t' + ":" + e', h');
      if |e| >= |e'| { LongerEnds(t, e, t', e'); } else { LongerEnds(t', e', t, e); }
    }
    if e == e' {
      assert Key("", e, h) == Key("", e', h);
    } else if EndsIn(e, ":" + e') {
      EndingShares(e, e', h);
    } else if EndsIn(e', ":" + e) {
      EndingShares(e', e, h);
    }
  }

  // ---- rendering without a cache -----------------------------------------------------------

  /** What an engine makes of a template, not asking whether the template is valid. */
  function Raw(cfg: Settings, template: string, engine: string, context: Id): Option<string> {
    var content := cfg.loader(template);
    if content.None? then None else cfg.engine(engine, content.value, context)
  }

  function Attempt(cfg: Settings, template: string, engine: string, context: Id, validate: bool)
    : Result<string, RenderError>
  {
    var content := cfg.loader(template);
    if content.None? then Err(TemplateUnbound)
    else if validate && content.value == "" then Err(RenderFailed)
    else
      var r := cfg.engine(engine, content.value, context);
      if r.None? then Err(RenderFailed) else Ok(r.value)
  }

  function EngineOf(cfg: Settings, c: Call): string {
    if c.engine == "" then cfg.fallbackEngine else c.engine
  }

  function Caching(cfg: Settings, c: Call): bool {
    if c.cache.Some? then c.cache.value else cfg.cacheEnabled
  }

  function Validating(cfg: Settings, c: Call): bool {
    if c.validate.Some? then c.validate.value else cfg.validation
  }

  predicate FallsBack(cfg: Settings, c: Call) {
    c.fallback && EngineOf(cfg, c) != cfg.fallbackEngine
  }

  /** The call made when the engine fails. */
  function FallbackCall(cfg: Settings, c: Call): Call {
    c.(engine := cfg.fallbackEngine, fallback := false,
       cache := Some(Caching(cfg, c)), validate := Some(Validating(cfg, c)))
  }

  /** Rendering without any cache: the engine asked for, else the fallback engine. */
  function Direct(cfg: Settings, c: Call): Result<string, RenderError> {
    var first := Attempt(cfg, c.template, EngineOf(cfg, c), c.context, Validating(cfg, c));
    if first.Ok? || !FallsBack(cfg, c) then first
    else Attempt(cfg, c.template, cfg.fallbackEngine, c.context, Validating(cfg, c))
  }

  // ---- rendering with the cache ------------------------------------------------------------

  predicate CacheValid(cfg: Settings, s: State, key: string, now: int) {
    cfg.cacheEnabled && key in s.stamps && now - s.stamps[key] < cfg.ttl
  }

  /** Whether the call finds a fresh entry for its own engine. */
  predicate Hits(cfg: Settings, s: State, c: Call) {
    Caching(cfg, c) && CacheValid(cfg, s, KeyOf(cfg, c.template, EngineOf(cfg, c), c.context), c.now)
  }

  function Recorded(stats: Stats, success: bool, cached: bool): Stats {
    Stats(stats.total + 1,
          stats.successful + if success then 1 else 0,
          stats.failed + if success then 0 else 1,
          stats.cached + if cached then 1 else 0)
  }

  ghost predicate SameKeys(s: State) {
    s.contents.Keys == s.stamps.Keys
  }

  /** `render` */
  function Render(cfg: Settings, s: State, c: Call): (State, Result<string, RenderError>)
    requires SameKeys(s)
    decreases c.fallback
  {
    var key := KeyOf(cfg, c.template, EngineOf(cfg, c), c.context);
    if Hits(cfg, s, c) then
      (s.(stats := Recorded(s.stats, true, true)), Ok(s.contents[key]))
    else
      var first := Attempt(cfg, c.template, EngineOf(cfg, c), c.context, Validating(cfg, c));
      if first.Ok? then
        var stats := Recorded(s.stats, true, false);
        (if Caching(cfg, c) then State(s.contents[key := first.value], s.stamps[key := c.now], stats)
         else s.(stats := stats), first)
      else if FallsBack(cfg, c) then Render(cfg, s, FallbackCall(cfg, c))
      else (s, first)
  }

  predicate HasPrefix(key: string, prefix: string) {
    prefix <= key
  }

  /** `clear_cache`: the entries whose keys start with the template's name and a colon, or all. */
  function Cleared(s: State, template: string): State {
    if template == "" then s.(contents := map[], stamps := map[])
    else
      var gone := set key | key in s.contents && HasPrefix(key, template + ":");
      s.(contents := s.contents - gone, stamps := s.stamps - gone)
  }

  class TemplateRenderer {
    const cfg: Settings
    var contents: map<string, string>
    var stamps: map<string, int>
    var stats: Stats

    ghost function Now(): State
      reads this
    {
      State(contents, stamps, stats)
    }

    ghost predicate Valid()
      reads this
    {
      SameKeys(Now())
    }

    constructor (cfg: Settings)
      ensures this.cfg == cfg && Valid() && Now() == Fresh()
    {
      this.cfg := cfg;
      contents, stamps, stats := map[], map[], Stats(0, 0, 0, 0);
    }

    method RecordRender(success: bool, cached: bool)
      modifies this`stats
      ensures stats == Recorded(old(stats), success, cached)
    {
      stats := stats.(total := stats.total + 1);
      if success {
        stats := stats.(successful := stats.successful + 1);
      } else {
        stats := stats.(failed := stats.failed + 1);
      }
      if cached {
        stats := stats.(cached := stats.cached + 1);
      }
    }

    method StoreInCache(key: string, content: string, now: int)
      modifies this`contents, this`stamps
      ensures contents == old(contents)[key := content] && stamps == old(stamps)[key := now]
    {
      contents := contents[key := content];
      stamps := stamps[key := now];
    }

    method RenderTemplate(c: Call) returns (r: Result<string, RenderError>)
      requires Valid()
      modifies this
      ensures Valid() && (Now(), r) == Render(cfg, old(Now()), c)
      decreases c.fallback
    {
      var engine := EngineOf(cfg, c);
      var key := KeyOf(cfg, c.template, engine, c.context);
      if Caching(cfg, c) && CacheValid(cfg, State(contents, stamps, stats), key, c.now) {
        RecordRender(true, true);
        return Ok(contents[key]);
      }
      r := Attempt(cfg, c.template, engine, c.context, Validating(cfg, c));
      if r.Ok? {
        if Caching(cfg, c) {
          StoreInCache(key, r.value, c.now);
        }
        RecordRender(true, false);
      } else if c.fallback && engine != cfg.fallbackEngine {
        r := RenderTemplate(FallbackCall(cfg, c));
      }
    }

    method ClearCache(template: string)
      requires Valid()
      modifies this`contents, this`stamps
      ensures Valid() && Now() == Cleared(old(Now()), template)
    {
      if template != "" {
        var gone := set key | key in contents && HasPrefix(key, template + ":");
        contents, stamps := contents - gone, stamps - gone;
      } else {
        contents, stamps := map[], map[];
      }
    }
  }

  function Fresh(): State {
    State(map[], map[], Stats(0, 0, 0, 0))
  }

  // ---- what the cache holds -----------------------------------------------------------------------

  /** Digests separate contexts and, like the fallback engine's name, hold no colon. */
  ghost predicate Usual(cfg: Settings) {
    && NoColon(cfg.fallbackEngine)
    && (forall c :: NoColon(cfg.digest(c)))
    && (forall c, c' :: cfg.digest(c) == cfg.digest(c') ==> c == c')
  }

  /** The entry under this key is what its engine makes of its template and context. */
  ghost predicate EntryOf(cfg: Settings, key: string, content: string, t: string, e: string, c: Id) {
    key == KeyOf(cfg, t, e, c) && NoColon(e) && Raw(cfg, t, e, c) == Some(content)
  }

  ghost predicate CacheSound(cfg: Settings, s: State) {
    SameKeys(s) && forall key :: key in s.contents ==> Explained(cfg, key, s.contents[key])
  }

  /** Some request that is rendered to the content has the key. */
  ghost predicate Explained(cfg: Settings, key: string, content: string) {
    exists t, e, c :: EntryOf(cfg, key, content, t, e, c)
  }

  lemma {:induction false} EntryFound(cfg: Settings, s: State, t: string, e: string, c: Id)
    requires Usual(cfg) && CacheSound(cfg, s) && NoColon(e) && KeyOf(cfg, t, e, c) in s.contents
    ensures Raw(cfg, t, e, c) == Some(s.contents[KeyOf(cfg, t, e, c)])
  {
    var key := KeyOf(cfg, t, e, c);
    assert Explained(cfg, key, s.contents[key]);
    var t', e', c' :| EntryOf(cfg, key, s.contents[key], t', e', c');
    KeysDiffer(t, e, cfg.digest(c), t', e', cfg.digest(c'));
  }

  lemma {:induction false} AttemptIsRaw(cfg: Settings, t: string, e: string, c: Id, validate: bool)
    ensures Attempt(cfg, t, e, c, validate).Ok? ==> Raw(cfg, t, e, c) == Some(Attempt(cfg, t, e, c, validate).value)
    ensures Attempt(cfg, t, e, c, validate).Ok? <==> Raw(cfg, t, e, c).Some? && !(validate && cfg.loader(t) == Some(""))
  {
  }

  lemma {:induction false} StoreSound(cfg: Settings, s: State, t: string, e: string, c: Id, content: string, now: int,
                                      stats: Stats)
    requires CacheSound(cfg, s) && NoColon(e) && Raw(cfg, t, e, c) == Some(content)
    ensures var key := KeyOf(cfg, t, e, c);
      CacheSound(cfg, State(s.contents[key := content], s.stamps[key := now], stats))
  {
    var key := KeyOf(cfg, t, e, c);
    assert EntryOf(cfg, key, content, t, e, c);
  }

  /** A cached entry answers for a template that validation would refuse: only then does the cache
      change an answer. */
  predicate SkipsValidation(cfg: Settings, s: State, c: Call) {
    && Validating(cfg, c) && cfg.loader(c.template) == Some("")
    && (Hits(cfg, s, c) || (FallsBack(cfg, c) && Hits(cfg, s, FallbackCall(cfg, c))))
  }

  /** Rendering with the cache returns what rendering without it would, exactly when no cached
      entry stands in for an empty template that is to be validated; and it keeps the cache sound. */
  lemma {:induction false} CacheIsInvisible(cfg: Settings, s: State, c: Call)
    requires Usual(cfg) && CacheSound(cfg, s) && NoColon(c.engine)
    ensures CacheSound(cfg, Render(cfg, s, c).0)
    ensures Render(cfg, s, c).1 == Direct(cfg, c) <==> !SkipsValidation(cfg, s, c)
    decreases c.fallback
  {
    var e := EngineOf(cfg, c);
    AttemptIsRaw(cfg, c.template, e, c.context, Validating(cfg, c));
    if Hits(cfg, s, c) {
      EntryFound(cfg, s, c.template, e, c.context);
      AttemptIsRaw(cfg, c.template, cfg.fallbackEngine, c.context, Validating(cfg, c));
    } else {
      var first := Attempt(cfg, c.template, e, c.context, Validating(cfg, c));
      if first.Ok? {
        StoreSound(cfg, s, c.template, e, c.context, first.value, c.now, Recorded(s.stats, true, false));
      } else if FallsBack(cfg, c) {
        CacheIsInvisible(cfg, s, FallbackCall(cfg, c));
      }
    }
  }

  /** An empty template rendered without validation is answered from the cache when the next call
      validates, although a render would be refused. */
  lemma {:induction false} CachedEmptyTemplate(cfg: Settings, t: string, c: Id, now: int)
    requires cfg.cacheEnabled && cfg.ttl > 0 && cfg.loader(t) == Some("") && cfg.engine("jinja2", "", c).Some?
    ensures var call := (validate: bool) => Call(t, c, "jinja2", None, Some(validate), false, now);
      var after := Render(cfg, Fresh(), call(false)).0;
      && Render(cfg, after, call(true)).1 == Ok(cfg.engine("jinja2", "", c).value)
      && Direct(cfg, call(true)) == Err(RenderFailed)
  {
  }

  lemma {:induction false} ClearKeepsSound(cfg: Settings, s: State, template: string)
    requires CacheSound(cfg, s)
    ensures CacheSound(cfg, Cleared(s, template))
  {
    var after := Cleared(s, template);
    forall key | key in after.contents ensures Explained(cfg, key, after.contents[key]) {
      assert Explained(cfg, key, s.contents[key]);
    }
  }

  /** Clearing a template leaves none of its entries, whatever engine or context made them. */
  lemma {:induction false} ClearedIsGone(cfg: Settings, s: State, template: string, engine: string, context: Id)
    requires SameKeys(s)
    ensures KeyOf(cfg, template, engine, context) !in Cleared(s, template).contents
  {
    var key := KeyOf(cfg, template, engine, context);
    assert key == template + ":" + (engine + ":" + cfg.digest(context));
    assert HasPrefix(key, template + ":");
  }

  /** Clearing a template drops, of the entries whose engine and digest hold no colon, exactly those
      of the template, of templates whose names go on with a colon after its name, and those whose
      template and engine together, with a colon in between, make up its name. */
  lemma {:induction false} ClearedExactly(cfg: Settings, s: State, template: string, t: string, e: string, c: Id)
    requires template != "" && NoColon(e) && NoColon(cfg.digest(c)) && KeyOf(cfg, t, e, c) in s.contents
    ensures KeyOf(cfg, t, e, c) !in Cleared(s, template).contents <==>
      t == template || HasPrefix(t, template + ":") || t + ":" + e == template
  {
    var key, h, n := KeyOf(cfg, t, e, c), cfg.digest(c), |template|;
    assert key == t + (":" + e + ":" + h) && key == t + ":" + e + (":" + h);
    KeyColons(t, e, h);
    if HasPrefix(key, template + ":") {
      assert key[..n] == template && key[n] == (template + ":")[n] == ':';
      assert n < |t| ==> t[..n + 1] == key[..n + 1] == template + ":";
      assert n == |t| ==> key[..n] == t;
      assert n == |t| + 1 + |e| ==> key[..n] == t + ":" + e;
    }
  }

  /** The colons of a key behind its template. */
  lemma {:induction false} KeyColons(t: string, e: string, h: string)
    requires NoColon(e) && NoColon(h)
    ensures forall k :: |t| <= k < |Key(t, e, h)| ==> (Key(t, e, h)[k] == ':' <==> k == |t| || k == |t| + 1 + |e|)
  {
    var key := Key(t, e, h);
    forall k | |t| <= k < |key| ensures key[k] == ':' <==> k == |t| || k == |t| + 1 + |e| {
      if |t| < k < |t| + 1 + |e| {
        assert key[k] == e[k - |t| - 1];
      } else if k > |t| + 1 + |e| {
        assert key[k] == h[k - |t| - |e| - 2];
      }
    }
  }

  // ---- what one render does --------------------------------------------------------------------------

  /** The call asks for the cache, or leaves it to the renderer, whose cache is on. */
  predicate Cached(cfg: Settings, c: Call) {
    c.cache == Some(true) || (c.cache.None? && cfg.cacheEnabled)
  }

  /** The renderer's cache holds an entry for the engine that is younger than the time to live. */
  predicate HasFresh(cfg: Settings, s: State, c: Call, engine: string) {
    var key := c.template + ":" + engine + ":" + cfg.digest(c.context);
    Cached(cfg, c) && cfg.cacheEnabled && key in s.stamps && c.now < s.stamps[key] + cfg.ttl
  }

  /** The text the engine makes of the template, unless it cannot be loaded or is empty under
      validation. */
  function TextBy(cfg: Settings, c: Call, engine: string): Option<string> {
    var content := cfg.loader(c.template);
    if content.None? then None
    else if content.value == "" && (c.validate == Some(true) || (c.validate.None? && cfg.validation)) then None
    else cfg.engine(engine, content.value, c.context)
  }

  predicate CanAnswer(cfg: Settings, s: State, c: Call, engine: string) {
    HasFresh(cfg, s, c, engine) || TextBy(cfg, c, engine).Some?
  }

  /** The engine's answer and what it leaves in the cache: a fresh entry is returned as it is; a text
      just made is returned and, if the call asks for the cache, entered under the engine's key at this
      time. */
  ghost predicate AnsweredBy(cfg: Settings, s: State, c: Call, engine: string, after: State,
                             r: Result<string, RenderError>)
  {
    var key := c.template + ":" + engine + ":" + cfg.digest(c.context);
    if HasFresh(cfg, s, c, engine) then
      && key in s.contents && r == Ok(s.contents[key]) && after.contents == s.contents && after.stamps == s.stamps
      && after.stats.cached == s.stats.cached + 1
    else
      var text := TextBy(cfg, c, engine);
      && text.Some? && r == Ok(text.value) && after.stats.cached == s.stats.cached
      && after.contents == (if Cached(cfg, c) then s.contents[key := text.value] else s.contents)
      && after.stamps == (if Cached(cfg, c) then s.stamps[key := c.now] else s.stamps)
  }

  /** A render is answered by the engine asked for, or the fallback engine where none is; if that has
      neither a fresh entry nor a text, by the fallback engine if the call allows it; otherwise it
      raises and changes nothing, reading an unbound variable exactly if the template cannot be loaded. */
  lemma {:induction false} RenderExactly(cfg: Settings, s: State, c: Call)
    requires SameKeys(s)
    ensures var (after, r) := Render(cfg, s, c);
      var engine := if c.engine == "" then cfg.fallbackEngine else c.engine;
      if CanAnswer(cfg, s, c, engine) then AnsweredBy(cfg, s, c, engine, after, r)
      else if c.fallback && CanAnswer(cfg, s, c, cfg.fallbackEngine) then
        AnsweredBy(cfg, s, c, cfg.fallbackEngine, after, r)
      else after == s && r.Err? && (r.error == TemplateUnbound <==> cfg.loader(c.template).None?)
    decreases c.fallback
  {
    var engine := EngineOf(cfg, c);
    assert KeyOf(cfg, c.template, engine, c.context) == c.template + ":" + engine + ":" + cfg.digest(c.context);
    assert Hits(cfg, s, c) <==> HasFresh(cfg, s, c, engine);
    if !CanAnswer(cfg, s, c, engine) && FallsBack(cfg, c) {
      var again := FallbackCall(cfg, c);
      RenderExactly(cfg, s, again);
      assert HasFresh(cfg, s, again, cfg.fallbackEngine) <==> HasFresh(cfg, s, c, cfg.fallbackEngine);
      assert TextBy(cfg, again, cfg.fallbackEngine) == TextBy(cfg, c, cfg.fallbackEngine);
    }
  }

  /** Without a cache: the text of the engine asked for, else that of the fallback engine if the call
      allows it, else an error. */
  lemma {:induction false} DirectExactly(cfg: Settings, c: Call)
    ensures var engine := if c.engine == "" then cfg.fallbackEngine else c.engine;
      var text := TextBy(cfg, c, engine);
      var second := if c.fallback then TextBy(cfg, c, cfg.fallbackEngine) else None;
      && (text.Some? ==> Direct(cfg, c) == Ok(text.value))
      && (text.None? && second.Some? ==> Direct(cfg, c) == Ok(second.value))
      && (text.None? && second.None? ==>
            Direct(cfg, c) == Err(if cfg.loader(c.template).None? then TemplateUnbound else RenderFailed))
  {
  }

  // ---- runs -------------------------------------------------------------------------------------

  datatype Op = RenderOp(call: Call) | ClearOp(template: string)

  ghost predicate PlainEngines(ops: seq<Op>) {
    forall op :: op in ops && op.RenderOp? ==> NoColon(op.call.engine)
  }

  function Run(cfg: Settings, ops: seq<Op>): (s: State)
    ensures SameKeys(s)
  {
    if ops == [] then Fresh()
    else
      var before := Run(cfg, ops[..|ops| - 1]);
      var op := ops[|ops| - 1];
      match op
      case RenderOp(c) => RenderKeepsKeys(cfg, before, c); Render(cfg, before, c).0
      case ClearOp(t) => Cleared(before, t)
  }

  /** The two maps always have the same keys. */
  lemma {:induction false} RenderKeepsKeys(cfg: Settings, s: State, c: Call)
    requires SameKeys(s)
    ensures SameKeys(Render(cfg, s, c).0)
    decreases c.fallback
  {
    var first := Attempt(cfg, c.template, EngineOf(cfg, c), c.context, Validating(cfg, c));
    if !Hits(cfg, s, c) && !first.Ok? && FallsBack(cfg, c) {
      RenderKeepsKeys(cfg, s, FallbackCall(cfg, c));
    }
  }

  lemma {:induction false} RunSound(cfg: Settings, ops: seq<Op>)
    requires Usual(cfg) && PlainEngines(ops)
    ensures CacheSound(cfg, Run(cfg, ops))
  {
    if ops != [] {
      var init, op := ops[..|ops| - 1], ops[|ops| - 1];
      assert op in ops && forall x :: x in init ==> x in ops;
      RunSound(cfg, init);
      match op {
        case RenderOp(c) => CacheIsInvisible(cfg, Run(cfg, init), c);
        case ClearOp(t) => ClearKeepsSound(cfg, Run(cfg, init), t);
      }
    }
  }

  /** After any calls, clock readings and clearings, with non-empty templates a render returns what
      a cache-free render would. */
  lemma {:induction false} RenderAfterAnything(cfg: Settings, ops: seq<Op>, c: Call)
    requires Usual(cfg) && PlainEngines(ops) && NoColon(c.engine)
    requires forall t :: cfg.loader(t) != Some("")
    ensures Render(cfg, Run(cfg, ops), c).1 == Direct(cfg, c)
  {
    RunSound(cfg, ops);
    CacheIsInvisible(cfg, Run(cfg, ops), c);
    assert cfg.loader(c.template) != Some("");
  }

  /** The number of render calls that returned. */
  function Returned(cfg: Settings, ops: seq<Op>): nat {
    if ops == [] then 0
    else
      var init, op := ops[..|ops| - 1], ops[|ops| - 1];
      Returned(cfg, init) + if op.RenderOp? && Render(cfg, Run(cfg, init), op.call).1.Ok? then 1 else 0
  }

  lemma {:induction false} RenderCounts(cfg: Settings, s: State, c: Call)
    requires SameKeys(s)
    ensures var (after, r) := Render(cfg, s, c);
      && after.stats.total == s.stats.total + (if r.Ok? then 1 else 0)
      && after.stats.successful == s.stats.successful + (if r.Ok? then 1 else 0)
      && after.stats.failed == s.stats.failed
      && s.stats.cached <= after.stats.cached <= s.stats.cached + (if r.Ok? then 1 else 0)
    decreases c.fallback
  {
    var first := Attempt(cfg, c.template, EngineOf(cfg, c), c.context, Validating(cfg, c));
    if !Hits(cfg, s, c) && !first.Ok? && FallsBack(cfg, c) {
      RenderCounts(cfg, s, FallbackCall(cfg, c));
    }
  }

  /** Renders counted are the calls that returned, however many fallbacks they took; failures are
      never counted. */
  lemma {:induction false} TotalIsReturned(cfg: Settings, ops: seq<Op>)
    ensures Run(cfg, ops).stats.total == Run(cfg, ops).stats.successful == Returned(cfg, ops)
    ensures Run(cfg, ops).stats.failed == 0 && Run(cfg, ops).stats.cached <= Returned(cfg, ops)
  {
    if ops != [] {
      var init, op := ops[..|ops| - 1], ops[|ops| - 1];
      TotalIsReturned(cfg, init);
      if op.RenderOp? {
        RenderCounts(cfg, Run(cfg, init), op.call);
      }
    }
  }
}
