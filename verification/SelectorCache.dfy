/** The weak selector cache: over every interleaving of lookups, publications,
    prunes and selector drops, callers see the uncached answer. */
module SelectorCache {
  import opened Wrappers
  import opened Words
  import opened Text
  import opened BookFormat
  import opened Resolution
  import Orders

  const MAX_SELECTOR_CACHE_ENTRIES: nat := 20_000

  /** `live` holds the masks that still have a strong reference, by allocation;
      a weak entry upgrades exactly when its allocation is there. */
  datatype Cache = Cache(entries: map<seq<Bytes>, nat>, live: map<nat, Mask>, next: nat)

  /** A selector: a mask and the allocation that holds it. */
  datatype SharedMask = SharedMask(arc: nat, mask: Mask)

  const EMPTY_CACHE: Cache := Cache(map[], map[], 0)

  /** `cache.get(&names).and_then(Weak::upgrade)` */
  function Upgrade(c: Cache, names: seq<Bytes>): Option<SharedMask> {
    if names in c.entries && c.entries[names] in c.live
    then Some(SharedMask(c.entries[names], c.live[c.entries[names]])) else None
  }

  /** The second critical section of `resolve`: reuse, else insert below the cap. */
  function Publish(c: Cache, names: seq<Bytes>, mask: Mask): (Cache, SharedMask) {
    match Upgrade(c, names)
    case Some(s) => (c, s)
    case None =>
      (Cache(if |c.entries| < MAX_SELECTOR_CACHE_ENTRIES then c.entries[names := c.next] else c.entries,
             c.live[c.next := mask], c.next + 1),
       SharedMask(c.next, mask))
  }

  function Prune(c: Cache): Cache {
    c.(entries := map names | names in c.entries && c.entries[names] in c.live :: c.entries[names])
  }

  /** The last strong reference to a selector mask goes away. */
  function Release(c: Cache, arc: nat): Cache {
    c.(live := c.live - {arc})
  }

  // ----- runs

  datatype Step = PublishStep(names: seq<Bytes>, mask: Mask) | PruneStep | ReleaseStep(arc: nat)

  function Next(c: Cache, s: Step): Cache {
    match s
    case PublishStep(names, mask) => Publish(c, names, mask).0
    case PruneStep => Prune(c)
    case ReleaseStep(arc) => Release(c, arc)
  }

  function RunSteps(steps: seq<Step>): Cache {
    if steps == [] then EMPTY_CACHE else Next(RunSteps(steps[..|steps| - 1]), steps[|steps| - 1])
  }

  /** Threads publish only what the uncached computation gave them. */
  ghost predicate Legal(b: RawBook, s: Step) {
    s.PublishStep? ==> Answers(b, Elements(s.names), Ok(s.mask))
  }

  /** Allocations are numbered in order, and no two entries share one. */
  ghost predicate Numbered(c: Cache) {
    && (forall names :: names in c.entries ==> c.entries[names] < c.next)
    && (forall x, y :: x in c.entries && y in c.entries && c.entries[x] == c.entries[y] ==> x == y)
    && forall arc :: arc in c.live ==> arc < c.next
  }

  /** Whatever is still held for a list of names is the answer to them. */
  ghost predicate Truthful(b: RawBook, c: Cache) {
    forall names :: names in c.entries && c.entries[names] in c.live ==>
      Answers(b, Elements(names), Ok(c.live[c.entries[names]]))
  }

  ghost predicate Sound(b: RawBook, c: Cache) {
    |c.entries| <= MAX_SELECTOR_CACHE_ENTRIES && Numbered(c) && Truthful(b, c)
  }

  lemma PublishNumbered(c: Cache, names: seq<Bytes>, mask: Mask)
    requires Numbered(c)
    ensures Numbered(Publish(c, names, mask).0)
  {
  }

  lemma PublishTruthful(b: RawBook, c: Cache, names: seq<Bytes>, mask: Mask)
    requires Numbered(c) && Truthful(b, c) && Answers(b, Elements(names), Ok(mask))
    ensures Truthful(b, Publish(c, names, mask).0)
    ensures Answers(b, Elements(names), Ok(Publish(c, names, mask).1.mask))
  {
  }

  lemma StepSound(b: RawBook, c: Cache, s: Step)
    requires Sound(b, c) && Legal(b, s)
    ensures Sound(b, Next(c, s))
    ensures s.PublishStep? ==> Answers(b, Elements(s.names), Ok(Publish(c, s.names, s.mask).1.mask))
  {
    match s
    case PublishStep(names, mask) =>
      PublishNumbered(c, names, mask);
      PublishTruthful(b, c, names, mask);
    case PruneStep => Orders.SmallerSet(Prune(c).entries.Keys, c.entries.Keys);
    case ReleaseStep(_) =>
  }

  /** In every reachable state the cache is within its cap, and whatever a lookup
      or a publication hands out is the uncached answer for those names. */
  lemma {:induction false} CacheTransparent(b: RawBook, steps: seq<Step>, names: seq<Bytes>, mask: Mask)
    requires forall s :: s in steps ==> Legal(b, s)
    ensures Sound(b, RunSteps(steps)) && |RunSteps(steps).entries| <= 20_000
    ensures Upgrade(RunSteps(steps), names).Some? ==>
              Answers(b, Elements(names), Ok(Upgrade(RunSteps(steps), names).value.mask))
    ensures Answers(b, Elements(names), Ok(mask)) ==>
              Publish(RunSteps(steps), names, mask).1.mask == mask
  {
    if steps != [] {
      assert steps[|steps| - 1] in steps;
      CacheTransparent(b, steps[..|steps| - 1], names, mask);
      StepSound(b, RunSteps(steps[..|steps| - 1]), steps[|steps| - 1]);
    }
    var c := RunSteps(steps);
    if Answers(b, Elements(names), Ok(mask)) {
      StepSound(b, c, PublishStep(names, mask));
      AnswersUnique(b, Elements(names), Ok(mask), Ok(Publish(c, names, mask).1.mask));
    }
  }

  /** After any run: a list whose selector is still held gets that selector and nothing
      changes; another gets one of its own, which later lookups share if the cache had
      room for it. Other lists are found as before. */
  lemma PublishShares(b: RawBook, steps: seq<Step>, names: seq<Bytes>, mask: Mask)
    requires forall s :: s in steps ==> Legal(b, s)
    ensures var c, (c', sel) := RunSteps(steps), Publish(RunSteps(steps), names, mask);
            && (Upgrade(c, names).Some? ==> c' == c && sel == Upgrade(c, names).value)
            && (Upgrade(c, names).None? ==>
                  && sel.mask == mask && sel.arc !in c.live && c'.live == c.live[sel.arc := mask]
                  && (|c.entries| < 20_000 ==> Upgrade(c', names) == Some(sel)))
            && forall other :: other != names ==> Upgrade(c', other) == Upgrade(c, other)
  {
    CacheTransparent(b, steps, names, mask);
  }

  // ----- the book with its cache

  function Normalized(patterns: seq<Bytes>): set<Bytes> {
    set p | p in patterns :: NormalizeCategory(p)
  }

  /** The meaning of `resolve`: a function of the set of normalised patterns. */
  ghost predicate ResolvesTo(b: RawBook, names: set<Bytes>, r: Result<Mask>) {
    && (r.Ok? <==> forall n :: n in names ==> n != [] && Known(b, n))
    && (r.Ok? ==>
          && |r.value| == (if names == {} then 0 else b.words)
          && ValidMask(r.value) && Bits(r.value) == Selected(b, names))
  }

  lemma ResolvesToUnique(b: RawBook, names: set<Bytes>, r: Result<Mask>, r': Result<Mask>)
    requires ResolvesTo(b, names, r) && ResolvesTo(b, names, r')
    ensures r == r'
  {
    if r.Ok? && r'.Ok? { MaskExtensional(r.value, r'.value); }
  }

  /** A selector without its allocation. */
  function MaskOf(r: Result<SharedMask>): Result<Mask> {
    match r
    case Ok(sel) => Ok(sel.mask)
    case Err => Err
  }

  lemma NormalizedSnoc(patterns: seq<Bytes>, i: nat)
    requires i < |patterns|
    ensures Normalized(patterns[..i + 1]) == Normalized(patterns[..i]) + {NormalizeCategory(patterns[i])}
    ensures NormalizeCategory(patterns[i]) in Normalized(patterns)
  {
    assert patterns[..i + 1] == patterns[..i] + [patterns[i]];
  }

  /** The set of normalised patterns, unless one of them is blank. */
  method NormalizeAll(patterns: seq<Bytes>) returns (r: Option<set<Bytes>>)
    ensures r == if [] in Normalized(patterns) then None else Some(Normalized(patterns))
    ensures patterns != [] ==> Normalized(patterns) != {}
  {
    var names: set<Bytes> := {};
    for i := 0 to |patterns|
      invariant names == Normalized(patterns[..i]) && [] !in names && (i > 0 ==> names != {})
    {
      var name := NormalizeCategory(patterns[i]);
      NormalizedSnoc(patterns, i);
      if name == [] { return None; }
      names := names + {name};
    }
    assert patterns[..|patterns|] == patterns;
    r := Some(names);
  }

  lemma NothingResolves(b: RawBook)
    ensures ResolvesTo(b, {}, Ok([]))
  {
    ZerosEmpty(0);
  }

  /** The answer to the sorted names is what the names resolve to. */
  lemma NamesResolve(b: RawBook, names: set<Bytes>, r: Result<Mask>)
    requires Answers(b, Elements(SortedTexts(names)), r) && [] !in names && names != {}
    ensures ResolvesTo(b, names, r)
  {
    SortedTextsSpec(names);
    assert Elements(SortedTexts(names)) == names;
  }

  class AddrBook {
    const raw: RawBook
    var cache: Cache

    ghost predicate Valid()
      reads this
    {
      BookFormat.Valid(raw) && Sound(raw, cache)
    }

    constructor (raw: RawBook)
      requires BookFormat.Valid(raw)
      ensures this.raw == raw && cache == EMPTY_CACHE && Valid()
    {
      this.raw := raw;
      cache := EMPTY_CACHE;
    }

    /** The cached selector of a list of names, or the computed one published. */
    method ResolveNames(key: seq<Bytes>) returns (r: Result<SharedMask>)
      requires Valid()
      modifies this
      ensures Valid() && Answers(raw, Elements(key), MaskOf(r))
      ensures r.Ok? ==> (cache, r.value) == Publish(old(cache), key, r.value.mask)
      ensures r.Err? ==> cache == old(cache)
    {
      var found := Upgrade(cache, key);
      if found.Some? { return Ok(found.value); }
      var computed := ResolveUncached(raw, key);
      if computed.Err? { return Err; }
      StepSound(raw, cache, PublishStep(key, computed.value));
      var (cache', sel) := Publish(cache, key, computed.value);
      cache := cache';
      r := Ok(sel);
    }

    /** The selector of no names: an allocation of its own, never cached. */
    method ResolveNothing() returns (r: SharedMask)
      requires Valid()
      modifies this
      ensures Valid() && r.mask == []
    {
      r := SharedMask(cache.next, []);
      cache := cache.(live := cache.live[cache.next := []], next := cache.next + 1);
    }

    /** What the patterns resolve to, whatever is cached. */
    method Resolve(patterns: seq<Bytes>) returns (r: Result<SharedMask>)
      requires Valid()
      modifies this
      ensures Valid() && ResolvesTo(raw, Normalized(patterns), MaskOf(r))
      ensures r.Ok? && patterns != [] ==>
                (cache, r.value) == Publish(old(cache), SortedTexts(Normalized(patterns)), r.value.mask)
      ensures r.Err? ==> cache == old(cache)
    {
      var names := NormalizeAll(patterns);
      if names.None? { return Err; }
      if names.value == {} {
        NothingResolves(raw);
        var sel := ResolveNothing();
        return Ok(sel);
      }
      var key := SortedTexts(names.value);
      r := ResolveNames(key);
      NamesResolve(raw, names.value, MaskOf(r));
    }

    /** Keeps exactly the entries whose selector is still held; no lookup answers
        differently for it. */
    method PruneSelectorCache()
      requires Valid()
      modifies this
      ensures Valid()
      ensures forall names :: names in cache.entries <==> Upgrade(old(cache), names).Some?
      ensures forall names :: Upgrade(cache, names) == Upgrade(old(cache), names)
      ensures cache.live == old(cache).live && cache.next == old(cache).next
    {
      StepSound(raw, cache, PruneStep);
      cache := Prune(cache);
    }
  }
}
