/** Cached regular-expression matching. The regular-expression engine is
    an outside collaborator: the model takes it as a value of `Engine`
    (which patterns compile, and where a compiled pattern first matches a
    text) and assumes only that reported spans lie inside the searched text.
    The per-thread cache is an object that the caller holds. */
module Regex {
  import opened Prelude

  /** A match `[start, end)` in byte offsets of the searched text. */
  datatype Span = Span(start: nat, end: nat)

  /** The engine: `compiles(p)` says `Regex::new(p)` succeeds, and
      `find(p, h)` is `Regex::find` of the compiled `p` on `h`, the
      leftmost match if there is one. */
  datatype Engine = Engine(compiles: string -> bool, find: (string, string) -> Option<Span>)

  predicate SpanWithin(r: Option<Span>, h: string)
  {
    r.Some? ==> r.value.start <= r.value.end <= |h|
  }

  /** The one thing the model assumes of the engine. */
  ghost predicate WellFormed(e: Engine)
  {
    forall p, h :: SpanWithin(e.find(p, h), h)
  }

  /** A compiled pattern, keyed by its source text. */
  datatype Compiled = Compiled(source: string)

  /** The `(matched, captured_text, end_pos)` triple of `re_match`. */
  datatype MatchResult = MatchResult(matched: bool, text: string, end: int)

  /** `re_match(pattern, text, pos)`: a match that begins exactly at byte
      offset `pos`. A `pos` past the end, or a negative one (which the cast
      to `usize` turns into a huge offset), is a soft failure, as is a
      first match that starts anywhere other than `pos`. On success the
      captured text is `text[pos..end]`; on failure the position is
      returned unchanged. */
  function MatchAt(e: Engine, pattern: string, text: string, pos: int): (m: MatchResult)
    requires WellFormed(e)
    ensures !m.matched ==> m == MatchResult(false, "", pos)
    ensures m.matched ==> 0 <= pos <= m.end <= |text|
    ensures m.matched ==> m.end == pos + |m.text| && text[pos..m.end] == m.text
    ensures m.matched <==>
      && 0 <= pos <= |text|
      && e.find(pattern, text[pos..]).Some?
      && e.find(pattern, text[pos..]).value.start == 0
    ensures m.matched ==> m.end == pos + e.find(pattern, text[pos..]).value.end
  {
    if pos < 0 || pos > |text| then
      MatchResult(false, "", pos)
    else
      var haystack := text[pos..];
      var found := e.find(pattern, haystack);
      assert SpanWithin(found, haystack);
      match found
      case Some(m) =>
        if m.start == 0 then
          assert text[pos..pos + m.end] == haystack[..m.end];
          MatchResult(true, haystack[m.start..m.end], pos + m.end)
        else
          MatchResult(false, "", pos)
      case None =>
        MatchResult(false, "", pos)
  }

  /** One thread's pattern cache. */
  class RegexCache {
    const engine: Engine
    var cache: map<string, Compiled>

    /** Every cached entry is the compilation of its own key, and only
        patterns that compile are cached. */
    ghost predicate Valid()
      reads this
    {
      && WellFormed(engine)
      && forall p :: p in cache ==> cache[p] == Compiled(p) && engine.compiles(p)
    }

    /** The cache grows only: no entry is removed or replaced. */
    ghost predicate GrowsFrom(before: map<string, Compiled>)
      reads this
    {
      forall p :: p in before ==> p in cache && cache[p] == before[p]
    }

    constructor (engine: Engine)
      requires WellFormed(engine)
      ensures Valid() && this.engine == engine && cache == map[]
    {
      this.engine := engine;
      cache := map[];
    }

    /** `get_or_compile`: a pattern that does not compile aborts the
        process, so compiling is the caller's obligation. A miss inserts
        the pattern; a hit leaves the cache as it is. */
    method GetOrCompile(pattern: string) returns (re: Compiled)
      requires Valid() && engine.compiles(pattern)
      modifies this
      ensures Valid() && GrowsFrom(old(cache))
      ensures re == Compiled(pattern) && pattern in cache
      ensures cache == if pattern in old(cache) then old(cache) else old(cache)[pattern := re]
    {
      if pattern !in cache {
        cache := cache[pattern := Compiled(pattern)];
      }
      re := cache[pattern];
    }

    /** `re_match`. The range check comes before the cache is consulted, so
        an out-of-range position neither needs a valid pattern nor touches
        the cache. The result never depends on what the cache held. */
    method Match(pattern: string, text: string, pos: int) returns (res: MatchResult)
      requires Valid()
      requires 0 <= pos <= |text| ==> engine.compiles(pattern)
      modifies this
      ensures Valid() && GrowsFrom(old(cache))
      ensures res == MatchAt(engine, pattern, text, pos)
      ensures (pos < 0 || pos > |text|) ==> cache == old(cache)
      ensures 0 <= pos <= |text| ==>
        cache == if pattern in old(cache) then old(cache) else old(cache)[pattern := Compiled(pattern)]
    {
      if pos < 0 || pos > |text| {
        return MatchResult(false, "", pos);
      }
      var re := GetOrCompile(pattern);
      var haystack := text[pos..];
      var found := engine.find(re.source, haystack);
      match found {
        case Some(m) =>
          if m.start == 0 {
            assert SpanWithin(found, haystack);
            res := MatchResult(true, haystack[m.start..m.end], pos + m.end);
          } else {
            res := MatchResult(false, "", pos);
          }
        case None =>
          res := MatchResult(false, "", pos);
      }
    }

    /** `re_is_match`: the engine's unanchored search over the whole text. */
    method IsMatch(pattern: string, text: string) returns (b: bool)
      requires Valid() && engine.compiles(pattern)
      modifies this
      ensures Valid() && GrowsFrom(old(cache)) && pattern in cache
      ensures b == engine.find(pattern, text).Some?
      ensures cache == if pattern in old(cache) then old(cache) else old(cache)[pattern := Compiled(pattern)]
    {
      var re := GetOrCompile(pattern);
      b := engine.find(re.source, text).Some?;
    }
  }

  /** Cache transparency: the same call made twice, with the cache warmed
      by the first, gives the same answer. */
  method RepeatedMatch(c: RegexCache, pattern: string, text: string, pos: int)
    returns (first: MatchResult, second: MatchResult)
    requires c.Valid() && c.engine.compiles(pattern)
    modifies c
    ensures first == second
  {
    first := c.Match(pattern, text, pos);
    second := c.Match(pattern, text, pos);
  }
}
