/** The memory budget of selector masks: each allocation is charged once, however
    many routes share it. */
module SelectorBudget {
  import opened Wrappers
  import opened Text
  import opened Resolution
  import opened SelectorCache
  import Orders

  const MAX_ADDRBOOK_SELECTOR_BYTES: nat := 67_108_864

  /** A sorted list of category names, as the cache is keyed. */
  type Key = seq<Bytes>

  /** Bytes of `n` masks. */
  function Cost(words: nat, n: nat): nat {
    if n == 0 then 0 else Cost(words, n - 1) + 8 * words
  }

  lemma {:induction false} CostIsProduct(words: nat, n: nat)
    ensures Cost(words, n) == 8 * words * n
  {
    if n > 0 { CostIsProduct(words, n - 1); }
  }

  predicate Within(words: nat, n: nat) {
    Cost(words, n) <= MAX_ADDRBOOK_SELECTOR_BYTES
  }

  /** The masks of 64 MiB. */
  lemma WithinIff(words: nat, n: nat)
    ensures Within(words, n) <==> 8 * words * n <= 67_108_864
  {
    CostIsProduct(words, n);
  }

  lemma {:induction false} CostGrows(words: nat, m: nat, n: nat)
    requires m <= n
    ensures Cost(words, m) <= Cost(words, n) && Cost(words, m + 1) == Cost(words, m) + 8 * words
  {
    if m < n { CostGrows(words, m, n - 1); }
  }

  /** The allocations seen, and the bytes charged for them. */
  datatype Charges = Charges(seen: set<nat>, bytes: nat)

  /** `account_book_selector`: an allocation of `size` bytes, charged when it is new. */
  function Account(ch: Charges, arc: nat, size: nat): Option<Charges> {
    if arc in ch.seen then Some(ch)
    else if ch.bytes + size <= MAX_ADDRBOOK_SELECTOR_BYTES then Some(Charges(ch.seen + {arc}, ch.bytes + size))
    else None
  }

  // ----- how many allocations there are

  /** The lists that are cached, those of them that were handed out, and the
      allocations handed out in all. */
  datatype Tally = Tally(cached: set<Key>, used: set<Key>, allocations: nat)

  /** One list more: a cached one is shared, a new one is cached if there is room, and
      one without room has an allocation to itself each time. */
  ghost function Enter(t: Tally, key: Key): Tally {
    if key in t.cached
    then Tally(t.cached, t.used + {key}, t.allocations + if key in t.used then 0 else 1)
    else if |t.cached| < MAX_SELECTOR_CACHE_ENTRIES
    then Tally(t.cached + {key}, t.used + {key}, t.allocations + 1)
    else Tally(t.cached, t.used, t.allocations + 1)
  }

  ghost function TallyOf(cached: set<Key>, keys: seq<Key>): Tally {
    if keys == [] then Tally(cached, {}, 0)
    else Enter(TallyOf(cached, keys[..|keys| - 1]), keys[|keys| - 1])
  }

  /** The allocations that these lists take, resolved one after the other. */
  ghost function Allocations(cached: set<Key>, keys: seq<Key>): nat {
    TallyOf(cached, keys).allocations
  }

  lemma TallySnoc(cached: set<Key>, keys: seq<Key>, key: Key)
    ensures TallyOf(cached, keys + [key]) == Enter(TallyOf(cached, keys), key)
  {
    assert (keys + [key])[..|keys|] == keys;
  }

  lemma {:induction false} AllocationsGrow(cached: set<Key>, keys: seq<Key>, more: seq<Key>)
    requires keys <= more
    ensures Allocations(cached, keys) <= Allocations(cached, more)
  {
    if |keys| < |more| {
      AllocationsGrow(cached, keys, more[..|more| - 1]);
    } else {
      assert keys == more;
    }
  }

  /** The cache can take all these lists. */
  ghost predicate Roomy(cached: set<Key>, keys: set<Key>) {
    |cached + keys| <= MAX_SELECTOR_CACHE_ENTRIES
  }

  lemma ElementsSnoc(keys: seq<Key>, key: Key)
    ensures Elements(keys + [key]) == Elements(keys) + {key}
  {
  }

  /** With room every list is cached at its first use. */
  lemma {:induction false} RoomyTally(cached: set<Key>, keys: seq<Key>)
    requires Roomy(cached, Elements(keys))
    ensures TallyOf(cached, keys) == Tally(cached + Elements(keys), Elements(keys), |Elements(keys)|)
  {
    if keys == [] {
      assert cached + {} == cached;
    } else {
      var prior, key := keys[..|keys| - 1], keys[|keys| - 1];
      assert keys == prior + [key];
      ElementsSnoc(prior, key);
      Orders.SmallerSet(cached + Elements(prior), cached + Elements(keys));
      RoomyTally(cached, prior);
      RoomyStep(cached, Elements(prior), key);
    }
  }

  lemma RoomyStep(cached: set<Key>, used: set<Key>, key: Key)
    requires Roomy(cached, used + {key})
    ensures Enter(Tally(cached + used, used, |used|), key) ==
            Tally(cached + (used + {key}), used + {key}, |used + {key}|)
  {
    var t := Tally(cached + used, used, |used|);
    assert cached + (used + {key}) == t.cached + {key};
    if key in t.cached {
      assert t.cached + {key} == t.cached;
      if key in used { assert used + {key} == used; }
    } else {
      assert |t.cached + {key}| == |t.cached| + 1;
    }
  }

  lemma {:induction false} TallyBounds(cached: set<Key>, keys: seq<Key>)
    ensures TallyOf(cached, keys).used <= Elements(keys)
    ensures |Elements(keys)| <= Allocations(cached, keys) <= |keys|
  {
    if keys != [] {
      var prior, key := keys[..|keys| - 1], keys[|keys| - 1];
      assert keys == prior + [key];
      TallyBounds(cached, prior);
      ElementsSnoc(prior, key);
      if key in Elements(prior) { assert Elements(prior) + {key} == Elements(prior); }
    }
  }

  /** At least as many allocations as distinct lists, at most as many as lists; with
      room, exactly as many as distinct lists, whatever their order. */
  lemma AllocationBounds(cached: set<Key>, keys: seq<Key>)
    ensures |Elements(keys)| <= Allocations(cached, keys) <= |keys|
    ensures Roomy(cached, Elements(keys)) ==> Allocations(cached, keys) == |Elements(keys)|
  {
    TallyBounds(cached, keys);
    if Roomy(cached, Elements(keys)) { RoomyTally(cached, keys); }
  }

  /** Every list that comes again is cached by then. */
  ghost predicate AllShared(cached: set<Key>, keys: seq<Key>) {
    forall i :: 0 <= i < |keys| && keys[i] in keys[..i] ==> keys[i] in TallyOf(cached, keys[..i]).cached
  }

  lemma SharedSnoc(cached: set<Key>, keys: seq<Key>, key: Key)
    ensures AllShared(cached, keys + [key]) <==>
            AllShared(cached, keys) && (key in keys ==> key in TallyOf(cached, keys).cached)
  {
    var more := keys + [key];
    assert forall i :: 0 <= i < |keys| ==> more[i] == keys[i] && more[..i] == keys[..i];
    assert more[|keys|] == key && more[..|keys|] == keys;
  }

  /** Each list has one allocation exactly when every list that comes again is cached. */
  lemma {:induction false} OnceEachIff(cached: set<Key>, keys: seq<Key>)
    ensures TallyOf(cached, keys).used == Elements(keys) * TallyOf(cached, keys).cached
    ensures Allocations(cached, keys) == |Elements(keys)| <==> AllShared(cached, keys)
  {
    if keys != [] {
      var prior, key := keys[..|keys| - 1], keys[|keys| - 1];
      assert keys == prior + [key];
      OnceEachIff(cached, prior);
      TallyBounds(cached, prior);
      SharedSnoc(cached, prior, key);
      ElementsSnoc(prior, key);
      UsedSnoc(TallyOf(cached, prior), Elements(prior), key);
      if key in prior { assert Elements(prior) + {key} == Elements(prior); }
    }
  }

  lemma UsedSnoc(t: Tally, done: set<Key>, key: Key)
    requires t.used == done * t.cached
    ensures Enter(t, key).used == (done + {key}) * Enter(t, key).cached
    ensures Enter(t, key).allocations == t.allocations + if key in done && key in t.cached then 0 else 1
  {
  }

  /** Without, the order counts: the last free place goes to the first list that comes. */
  lemma OrderCounts(cached: set<Key>, a: Key, b: Key)
    requires |cached| == MAX_SELECTOR_CACHE_ENTRIES - 1 && a !in cached && b !in cached && a != b
    ensures Allocations(cached, [a, a, b]) == 2 && Allocations(cached, [b, a, a]) == 3
  {
    ThreeLists(cached, a, a, b);
    ThreeLists(cached, b, a, a);
  }

  lemma ThreeLists(cached: set<Key>, x: Key, y: Key, z: Key)
    ensures TallyOf(cached, [x, y, z]) == Enter(Enter(Enter(Tally(cached, {}, 0), x), y), z)
  {
    TallySnoc(cached, [], x);
    TallySnoc(cached, [x], y);
    TallySnoc(cached, [x, y], z);
    assert [] + [x] == [x] && [x] + [y] == [x, y] && [x, y] + [z] == [x, y, z];
  }

  // ----- the cache follows the tally

  ghost predicate AllLive(c: Cache) {
    forall names :: names in c.entries ==> c.entries[names] in c.live
  }

  /** The cache holds the lists of the tally, and `seen` are the allocations handed out. */
  ghost predicate Follows(t: Tally, c: Cache, seen: set<nat>) {
    && Numbered(c) && AllLive(c) && c.entries.Keys == t.cached && |seen| == t.allocations
    && seen <= c.live.Keys && HandedOut(c.entries, seen, t.used)
  }

  ghost predicate HandedOut(entries: map<Key, nat>, seen: set<nat>, used: set<Key>) {
    forall names :: names in entries ==> (entries[names] in seen <==> names in used)
  }

  lemma FollowsStart(c: Cache)
    requires Numbered(c) && AllLive(c)
    ensures Follows(TallyOf(c.entries.Keys, []), c, {})
  {
  }

  lemma FollowsReused(t: Tally, c: Cache, seen: set<nat>, key: Key)
    requires Follows(t, c, seen) && key in c.entries
    ensures Follows(Enter(t, key), c, seen + {c.entries[key]})
  {
    var arc := c.entries[key];
    if arc in seen { assert seen + {arc} == seen; }
  }

  lemma FreshHandedOut(entries: map<Key, nat>, seen: set<nat>, used: set<Key>, key: Key, arc: nat)
    requires HandedOut(entries, seen, used) && key !in entries && arc !in entries.Values
    ensures HandedOut(entries[key := arc], seen + {arc}, used + {key}) && HandedOut(entries, seen + {arc}, used)
  {
    forall names | names in entries ensures entries[names] != arc { assert entries[names] in entries.Values; }
  }

  lemma FreshLive(c: Cache, key: Key, c': Cache, sel: SharedMask)
    requires Numbered(c) && AllLive(c) && key !in c.entries && (c', sel) == Publish(c, key, sel.mask)
    ensures sel.arc !in c.live && sel.arc !in c.entries.Values
    ensures AllLive(c') && c'.live.Keys == c.live.Keys + {sel.arc}
    ensures c'.entries ==
            if |c.entries.Keys| < MAX_SELECTOR_CACHE_ENTRIES then c.entries[key := sel.arc] else c.entries
  {
    assert |c.entries| == |c.entries.Keys|;
    assert c'.live == c.live[sel.arc := sel.mask];
  }

  lemma FreshTally(t: Tally, entries: map<Key, nat>, seen: set<nat>, key: Key, arc: nat, entries': map<Key, nat>)
    requires entries.Keys == t.cached && |seen| == t.allocations && HandedOut(entries, seen, t.used)
    requires key !in entries && arc !in entries.Values && arc !in seen
    requires entries' == if |entries.Keys| < MAX_SELECTOR_CACHE_ENTRIES then entries[key := arc] else entries
    ensures entries'.Keys == Enter(t, key).cached && |seen + {arc}| == Enter(t, key).allocations
    ensures HandedOut(entries', seen + {arc}, Enter(t, key).used)
  {
    FreshHandedOut(entries, seen, t.used, key, arc);
  }

  lemma FollowsFresh(t: Tally, c: Cache, seen: set<nat>, key: Key, c': Cache, sel: SharedMask)
    requires Follows(t, c, seen) && key !in c.entries && (c', sel) == Publish(c, key, sel.mask)
    ensures sel.arc !in seen && Follows(Enter(t, key), c', seen + {sel.arc})
  {
    PublishNumbered(c, key, sel.mask);
    FreshLive(c, key, c', sel);
    FreshTally(t, c.entries, seen, key, sel.arc, c'.entries);
  }

  /** A selector that is looked up or published was handed out before exactly when the
      tally does not count it. */
  lemma FollowsStep(t: Tally, c: Cache, seen: set<nat>, key: Key, c': Cache, sel: SharedMask)
    requires Follows(t, c, seen) && (c', sel) == Publish(c, key, sel.mask)
    ensures Follows(Enter(t, key), c', seen + {sel.arc})
    ensures Enter(t, key).allocations == t.allocations + if sel.arc in seen then 0 else 1
  {
    if key in c.entries {
      FollowsReused(t, c, seen, key);
    } else {
      FollowsFresh(t, c, seen, key, c', sel);
    }
  }

  // ----- the budget

  /** The lists cached when a compile starts, and the words of a mask. */
  datatype Budget = Budget(cached: set<Key>, words: nat)

  /** The selectors of these lists fit the memory budget. */
  ghost predicate Affords(budget: Budget, keys: seq<Key>) {
    Within(budget.words, Allocations(budget.cached, keys))
  }

  /** The charges are those of these lists, and within the budget. */
  ghost predicate Spent(budget: Budget, keys: seq<Key>, c: Cache, ch: Charges) {
    && Follows(TallyOf(budget.cached, keys), c, ch.seen) && Affords(budget, keys)
    && ch.bytes == Cost(budget.words, Allocations(budget.cached, keys))
  }

  lemma SpentNothing(c: Cache, words: nat)
    requires Numbered(c) && AllLive(c)
    ensures Spent(Budget(c.entries.Keys, words), [], c, Charges({}, 0))
  {
    FollowsStart(c);
  }

  lemma AffordsLess(budget: Budget, keys: seq<Key>, more: seq<Key>)
    requires keys <= more && Affords(budget, more)
    ensures Affords(budget, keys)
  {
    AllocationsGrow(budget.cached, keys, more);
    CostGrows(budget.words, Allocations(budget.cached, keys), Allocations(budget.cached, more));
  }

  /** A new allocation is charged one mask, a known one nothing. */
  lemma AccountIff(ch: Charges, arc: nat, words: nat, n: nat, n': nat)
    requires Within(words, n) && ch.bytes == Cost(words, n) && n' == n + if arc in ch.seen then 0 else 1
    ensures var r := Account(ch, arc, 8 * words);
            && (r.Some? <==> Within(words, n'))
            && (r.Some? ==> r.value == Charges(ch.seen + {arc}, Cost(words, n')))
  {
    CostGrows(words, n, n);
    if arc in ch.seen { assert ch.seen + {arc} == ch.seen; }
  }

  /** Charge one list's selector: done exactly when its lists fit the budget. */
  method ChargeSelector(sel: SharedMask, ch: Charges, ghost budget: Budget, ghost keys: seq<Key>, ghost c: Cache,
                        ghost c': Cache, ghost key: Key)
      returns (r: Option<Charges>)
    requires Spent(budget, keys, c, ch) && (c', sel) == Publish(c, key, sel.mask) && |sel.mask| == budget.words
    ensures r.Some? <==> Affords(budget, keys + [key])
    ensures r.Some? ==> Spent(budget, keys + [key], c', r.value)
  {
    TallySnoc(budget.cached, keys, key);
    FollowsStep(TallyOf(budget.cached, keys), c, ch.seen, key, c', sel);
    AccountIff(ch, sel.arc, budget.words, Allocations(budget.cached, keys), Allocations(budget.cached, keys + [key]));
    r := Account(ch, sel.arc, 8 * |sel.mask|);
  }
}
