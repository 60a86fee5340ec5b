/** The in-memory cache: entries with an expiry, eviction of one entry when space runs out, and a
    periodic cleanup. Instants are nanoseconds on a clock that is past Go's zero time. */
module Cache {
  import opened Durations
  import opened Text

  datatype Item = Item(value: string, expiration: int)

  type Items = map<string, Item>

  /** `ttl <= 0` means an hour. */
  function Ttl(ttl: int): int { if ttl <= 0 then HOUR else ttl }

  predicate Expired(i: Item, now: int) { now > i.expiration }

  /** What `Get` finds; at the very instant of expiry the entry is still there. */
  function Lookup(items: Items, key: string, now: int): Option<string> {
    if key in items && !Expired(items[key], now) then Some(items[key].value) else None
  }

  /** A lookup finds an entry up to and including its expiry. */
  lemma LookupMeaning(items: Items, key: string, now: int, value: string)
    ensures Lookup(items, key, now) == Some(value) <==>
      key in items && now <= items[key].expiration && items[key].value == value
  {
  }

  /** The time to live that was asked for, or an hour if it is not positive. */
  lemma TtlMeaning(ttl: int)
    ensures ttl > 0 ==> Ttl(ttl) == ttl
    ensures ttl <= 0 ==> Ttl(ttl) == 3_600_000_000_000
  {
  }

  // ---------- size ----------

  function Weight(key: string, item: Item): nat { |key| + |item.value| }

  ghost function Size(items: Items): nat {
    if items == map[] then 0
    else
      var key :| key in items;
      Weight(key, items[key]) + Size(items - {key})
  }

  /** The sum does not depend on the order in which the entries are taken. */
  lemma {:induction false} SizeWithout(items: Items, key: string)
    requires key in items
    ensures Size(items) == Weight(key, items[key]) + Size(items - {key})
    decreases items.Keys
  {
    var first :| first in items && Size(items) == Weight(first, items[first]) + Size(items - {first});
    if first != key {
      assert items - {first} - {key} == items - {key} - {first};
      SizeWithout(items - {first}, key);
      SizeWithout(items - {key}, first);
    }
  }

  /** The size counts the keys and the values, of every entry once. */
  lemma SizeMeaning(items: Items, key: string, item: Item)
    ensures Size(map[]) == 0
    ensures key !in items ==> Size(items[key := item]) == Size(items) + |key| + |item.value|
  {
    if key !in items {
      SizeWithout(items[key := item], key);
      assert items[key := item] - {key} == items;
    }
  }

  /** A cache that holds less weighs no more. */
  lemma {:induction false} SizeOfPart(part: Items, items: Items)
    requires forall key :: key in part ==> key in items && items[key] == part[key]
    ensures Size(part) <= Size(items)
    decreases part.Keys
  {
    if part != map[] {
      var key :| key in part;
      SizeWithout(part, key);
      SizeWithout(items, key);
      SizeOfPart(part - {key}, items - {key});
    }
  }

  // ---------- eviction and cleanup ----------

  /** What one eviction may leave: without one expired entry if there is any, else without one entry
      that expires first. An entry with the empty key is passed over in the second case. */
  ghost predicate Evicts(items: Items, now: int, after: Items) {
    (items == map[] && after == items) ||
    (exists key :: key in items && Expired(items[key], now) && after == items - {key}) ||
    ((forall key :: key in items ==> !Expired(items[key], now)) &&
     exists key :: key in items && ExpiresFirst(items, key) && after == if key == "" then items else items - {key})
  }

  ghost predicate ExpiresFirst(items: Items, key: string)
    requires key in items
  {
    forall other :: other in items ==> items[key].expiration <= items[other].expiration
  }

  function Cleaned(items: Items, now: int): Items {
    map key | key in items && !Expired(items[key], now) :: items[key]
  }

  /** A cleanup keeps exactly the entries that a lookup still finds, as they are. */
  lemma CleanedMeaning(items: Items, now: int, key: string)
    ensures key in Cleaned(items, now) <==> key in items && now <= items[key].expiration
    ensures key in Cleaned(items, now) ==> Cleaned(items, now)[key] == items[key]
  {
  }

  // ---------- history ----------

  /** The writes, and the losses that are not writes. */
  datatype Op =
    | Put(key: string, item: Item)
    | Drop(key: string)
    | Reset
    | Evict(key: string)
    | Clean(time: int)

  function Do(items: Items, op: Op): Items {
    match op
    case Put(key, item) => items[key := item]
    case Drop(key) => items - {key}
    case Reset => map[]
    case Evict(key) => items - {key}
    case Clean(time) => Cleaned(items, time)
  }

  /** The entries after a history. */
  function Replay(history: seq<Op>): Items {
    if history == [] then map[] else Do(Replay(history[..|history| - 1]), history[|history| - 1])
  }

  /** The latest write to a key that no delete or clear came after: what a cache that loses nothing
      on its own would hold. */
  function Written(history: seq<Op>, key: string): Option<Item> {
    if history == [] then None
    else
      var front := history[..|history| - 1];
      match history[|history| - 1]
      case Put(k, item) => if k == key then Some(item) else Written(front, key)
      case Drop(k) => if k == key then None else Written(front, key)
      case Reset => None
      case Evict(_) => Written(front, key)
      case Clean(_) => Written(front, key)
  }

  /** The key was evicted, and not written again since. */
  predicate EvictedSince(history: seq<Op>, key: string) {
    history != [] &&
    var front := history[..|history| - 1];
    match history[|history| - 1]
    case Put(k, _) => k != key && EvictedSince(front, key)
    case Drop(k) => k != key && EvictedSince(front, key)
    case Reset => false
    case Evict(k) => k == key || EvictedSince(front, key)
    case Clean(_) => EvictedSince(front, key)
  }

  /** No cleanup lies in the future. */
  predicate CleanedBy(history: seq<Op>, now: int) {
    forall i :: 0 <= i < |history| && history[i].Clean? ==> history[i].time <= now
  }

  lemma {:induction false} ReplayMeaning(history: seq<Op>, key: string, now: int)
    requires CleanedBy(history, now)
    ensures var items, written := Replay(history), Written(history, key);
      && (key in items ==> written == Some(items[key]))
      && (written.Some? && key !in items && !Expired(written.value, now) ==> EvictedSince(history, key))
      && (key in items ==> !EvictedSince(history, key))
  {
    if history != [] {
      ReplayMeaning(history[..|history| - 1], key, now);
    }
  }

  /** The cache answers what its history says: a lookup hits exactly when the latest write to the key,
      with no delete or clear after it, is within its time to live and was not evicted; and it
      returns what that write wrote. */
  lemma LookupIsHistory(history: seq<Op>, key: string, now: int)
    requires CleanedBy(history, now)
    ensures Lookup(Replay(history), key, now) ==
      var written := Written(history, key);
      if written.Some? && !Expired(written.value, now) && !EvictedSince(history, key)
      then Some(written.value.value) else None
  {
    hide Replay, Written, EvictedSince;
    ReplayMeaning(history, key, now);
  }

  lemma ReplayMore(history: seq<Op>, op: Op)
    ensures Replay(history + [op]) == Do(Replay(history), op)
  {
    assert (history + [op])[..|history|] == history;
  }

  /** The entries that `SetMulti` makes of the values under `keys`. */
  function Stamped(values: map<string, string>, keys: set<string>, expiration: int): Items
    requires keys <= values.Keys
  {
    map key | key in keys :: Item(values[key], expiration)
  }

  lemma OverStamped(before: Items, values: map<string, string>, expiration: int)
    ensures var after := before + Stamped(values, values.Keys, expiration);
      (forall key :: key in after <==> key in before || key in values) &&
      forall key :: key in after ==> after[key] == if key in values then Item(values[key], expiration) else before[key]
  {
  }

  lemma StampedLeaves(before: Items, values: map<string, string>, ttl: int, now: int, maxSize: int)
    ensures Leaves(before, Event(WriteAll(values, ttl), now), false, maxSize,
                   before + Stamped(values, values.Keys, now + Ttl(ttl)))
  {
  }

  lemma NothingStamped(values: map<string, string>, expiration: int)
    ensures Stamped(values, {}, expiration) == map[]
  {
  }

  lemma StampedMore(values: map<string, string>, done: set<string>, key: string, expiration: int)
    requires done <= values.Keys && key in values
    ensures Stamped(values, done + {key}, expiration) == Stamped(values, done, expiration)[key := Item(values[key], expiration)]
  {
  }

  lemma PutOver(a: Items, b: Items, key: string, item: Item)
    ensures (a + b)[key := item] == a + b[key := item]
  {
  }

  /** How many of the keys, counted as often as they are listed, are stored and strictly before expiry. */
  function FoundCount(items: Items, keys: seq<string>, now: int): (n: nat)
    ensures n <= |keys|
  {
    if keys == [] then 0
    else
      var key := keys[|keys| - 1];
      FoundCount(items, keys[..|keys| - 1], now) + if key in items && now < items[key].expiration then 1 else 0
  }

  lemma FoundNext(items: Items, keys: seq<string>, i: nat, now: int)
    requires i < |keys|
    ensures forall key :: key in keys[..i + 1] <==> key in keys[..i] || key == keys[i]
    ensures FoundCount(items, keys[..i + 1], now) ==
      FoundCount(items, keys[..i], now) + if keys[i] in items && now < items[keys[i]].expiration then 1 else 0
  {
    assert keys[..i + 1][..i] == keys[..i];
  }

  predicate PutsOneOf(op: Op, values: map<string, string>, expiration: int) {
    op.Put? && op.key in values && op.item == Item(values[op.key], expiration)
  }

  // ---------- the object ----------

  class MemoryCache {
    var items: Items
    var hits: nat
    var misses: nat
    var evictions: nat
    const maxSize: int
    ghost var history: seq<Op>

    /** `NewMemoryCache`. */
    constructor (maxSize: int)
      ensures Valid() && items == map[] && history == [] && hits == misses == evictions == 0
      ensures this.maxSize == if maxSize <= 0 then 104857600 else maxSize
    {
      this.maxSize := if maxSize <= 0 then 104857600 else maxSize;
      items, hits, misses, evictions, history := map[], 0, 0, 0, [];
    }

    /** The entries are those of the history, and expire after Go's zero time. */
    ghost predicate Valid()
      reads this
    {
      items == Replay(history) && forall key :: key in items ==> items[key].expiration > 0
    }

    method Get(key: string, now: int) returns (r: Option<string>)
      modifies this`hits, this`misses
      ensures r == Lookup(items, key, now)
      ensures r == if key in items && now <= items[key].expiration then Some(items[key].value) else None
      ensures hits == old(hits) + (if r.Some? then 1 else 0) && misses == old(misses) + (if r.Some? then 0 else 1)
    {
      if key !in items {
        misses := misses + 1;
        return None;
      }
      if now > items[key].expiration {
        misses := misses + 1;
        return None;
      }
      hits := hits + 1;
      return Some(items[key].value);
    }

    method Exists(key: string, now: int) returns (r: bool)
      ensures r == Lookup(items, key, now).Some?
      ensures r <==> key in items && now <= items[key].expiration
    {
      if key !in items { return false; }
      return !(now > items[key].expiration);
    }

    /** `GetMulti`, which unlike `Get` misses at the instant of expiry. */
    method GetMulti(keys: seq<string>, now: int) returns (r: map<string, string>)
      modifies this`hits, this`misses
      ensures forall key :: key in r <==> key in keys && key in items && now < items[key].expiration
      ensures forall key :: key in r ==> r[key] == items[key].value
      ensures hits == old(hits) + FoundCount(items, keys, now)
      ensures misses == old(misses) + |keys| - FoundCount(items, keys, now)
    {
      assert FoundCount(items, keys[..0], now) == 0;
      hide FoundCount;
      r := map[];
      for i := 0 to |keys|
        invariant forall key :: key in r <==> key in keys[..i] && key in items && now < items[key].expiration
        invariant forall key :: key in r ==> r[key] == items[key].value
        invariant hits == old(hits) + FoundCount(items, keys[..i], now)
        invariant misses == old(misses) + i - FoundCount(items, keys[..i], now)
      {
        var key := keys[i];
        FoundNext(items, keys, i, now);
        if key in items && now < items[key].expiration {
          r := r[key := items[key].value];
          hits := hits + 1;
        } else {
          misses := misses + 1;
        }
      }
      assert keys[..|keys|] == keys;
    }

    method CurrentSize() returns (size: nat)
      ensures size == Size(items)
    {
      size := 0;
      var rest := items;
      while rest != map[]
        invariant size + Size(rest) == Size(items)
        invariant forall key :: key in rest ==> key in items && items[key] == rest[key]
        decreases rest.Keys
      {
        var key :| key in rest;
        SizeWithout(rest, key);
        size := size + |key| + |rest[key].value|;
        rest := rest - {key};
      }
    }

    /** `evictOldest`: the entries in any order, with the running minimum; the first expired entry met
        is the victim. */
    method EvictOldest(now: int) returns (victim: Option<string>)
      requires Valid()
      modifies this`items, this`evictions, this`history
      ensures Valid() && Evicts(old(items), now, items)
      ensures victim.Some? ==> victim.value in old(items) && items == old(items) - {victim.value}
      ensures victim.Some? ==> history == old(history) + [Evict(victim.value)] && evictions == old(evictions) + 1
      ensures victim.None? ==> items == old(items) && history == old(history) && evictions == old(evictions)
    {
      var oldestKey, oldestTime := "", 0;
      var todo := items.Keys;
      while todo != {}
        invariant todo <= items.Keys
        invariant forall key :: key in items && key !in todo ==> !Expired(items[key], now) && oldestTime <= items[key].expiration
        invariant if oldestTime == 0 then todo == items.Keys && oldestKey == ""
          else oldestKey in items && items[oldestKey].expiration == oldestTime
        decreases todo
      {
        var key :| key in todo;
        if now > items[key].expiration {
          ReplayMore(history, Evict(key));
          items := items - {key};
          evictions := evictions + 1;
          history := history + [Evict(key)];
          return Some(key);
        }
        if oldestTime == 0 || items[key].expiration < oldestTime {
          oldestKey := key;
          oldestTime := items[key].expiration;
        }
        todo := todo - {key};
      }
      assert items != map[] ==> oldestKey in items && ExpiresFirst(items, oldestKey);
      if oldestKey != "" {
        ReplayMore(history, Evict(oldestKey));
        items := items - {oldestKey};
        evictions := evictions + 1;
        history := history + [Evict(oldestKey)];
        return Some(oldestKey);
      }
      return None;
    }

    /** `Set`: when the new entry would not fit, one entry is evicted, and then it is stored in any case. */
    method Set(key: string, value: string, ttl: int, now: int) returns (ghost victim: Option<string>)
      requires Valid() && now > 0
      modifies this`items, this`evictions, this`history
      ensures Valid()
      ensures var item := Item(value, now + Ttl(ttl));
        && SetLeaves(old(items), maxSize, key, item, now, items)
        && (victim.Some? ==> Size(old(items)) + Weight(key, item) > maxSize && victim.value in old(items))
        && history == old(history) + (if victim.Some? then [Evict(victim.value)] else []) + [Put(key, item)]
        && evictions == old(evictions) + (if victim.Some? then 1 else 0)
      ensures key in items && items[key] == Item(value, now + if ttl <= 0 then 3_600_000_000_000 else ttl)
      ensures Leaves(old(items), Event(Write(key, value, ttl), now), false, maxSize, items)
    {
      TtlMeaning(ttl);
      hide Ttl, Leaves, Replay, Evicts;
      var size := CurrentSize();
      var newItemSize := |key| + |value|;
      victim := None;
      if size + newItemSize > maxSize { victim := EvictOldest(now); }
      Store(key, Item(value, now + Ttl(ttl)));
      WriteLeaves(old(items), key, value, ttl, now, maxSize, items);
    }

    /** Storing one entry. */
    method Store(key: string, item: Item)
      requires Valid() && item.expiration > 0
      modifies this`items, this`history
      ensures Valid() && items == old(items)[key := item] && history == old(history) + [Put(key, item)]
    {
      ReplayMore(history, Put(key, item));
      items := items[key := item];
      history := history + [Put(key, item)];
    }

    /** `SetMulti`: no eviction, whatever the size. */
    method SetMulti(values: map<string, string>, ttl: int, now: int)
      requires Valid() && now > 0
      modifies this`items, this`history
      ensures Valid() && items == old(items) + Stamped(values, values.Keys, now + Ttl(ttl))
      ensures forall key :: key in items <==> key in old(items) || key in values
      ensures forall key :: key in items ==>
        (items[key] ==
           if key in values then Item(values[key], now + if ttl <= 0 then 3_600_000_000_000 else ttl) else old(items)[key])
      ensures Leaves(old(items), Event(WriteAll(values, ttl), now), false, maxSize, items)
      ensures old(history) <= history
      ensures forall i :: |old(history)| <= i < |history| ==> PutsOneOf(history[i], values, now + Ttl(ttl))
    {
      var expiration := now + Ttl(ttl);
      assert expiration > 0;
      TtlMeaning(ttl);
      hide Replay, Ttl, Size, Weight, Stamped, Leaves;
      NothingStamped(values, expiration);
      assert old(items) + map[] == old(items);
      var todo := values.Keys;
      ghost var done: set<string> := {};
      while todo != {}
        invariant todo !! done && todo + done == values.Keys && Valid() && old(history) <= history
        invariant items == old(items) + Stamped(values, done, expiration)
        invariant forall i :: |old(history)| <= i < |history| ==> PutsOneOf(history[i], values, expiration)
        decreases todo
      {
        var key :| key in todo;
        StampedMore(values, done, key, expiration);
        PutOver(old(items), Stamped(values, done, expiration), key, Item(values[key], expiration));
        todo, done := todo - {key}, done + {key};
        Store(key, Item(values[key], expiration));
      }
      assert done == values.Keys;
      OverStamped(old(items), values, expiration);
      StampedLeaves(old(items), values, ttl, now, maxSize);
    }

    method Delete(key: string)
      requires Valid()
      modifies this`items, this`history
      ensures Valid() && items == old(items) - {key} && history == old(history) + [Drop(key)]
      ensures forall now :: Leaves(old(items), Event(Remove(key), now), false, maxSize, items)
    {
      ReplayMore(history, Drop(key));
      items := items - {key};
      history := history + [Drop(key)];
    }

    method Clear()
      requires Valid()
      modifies this`items, this`history
      ensures Valid() && items == map[] && history == old(history) + [Reset]
      ensures forall now :: Leaves(old(items), Event(RemoveAll, now), false, maxSize, items)
    {
      ReplayMore(history, Reset);
      items := map[];
      history := history + [Reset];
    }

    /** `cleanup`: every expired entry goes. */
    method Cleanup(now: int)
      requires Valid()
      modifies this`items, this`evictions, this`history
      ensures Valid() && items == Cleaned(old(items), now) && history == old(history) + [Clean(now)]
      ensures forall key :: key in items <==> key in old(items) && now <= old(items)[key].expiration
      ensures forall key :: key in items ==> items[key] == old(items)[key]
      ensures evictions == old(evictions) + |old(items)| - |items|
      ensures Leaves(old(items), Event(Sweep, now), true, maxSize, items)
    {
      var todo := items.Keys;
      ghost var before := items;
      while todo != {}
        invariant todo <= before.Keys && history == old(history)
        invariant forall key :: key in items <==> key in before && (key in todo || !Expired(before[key], now))
        invariant forall key :: key in items ==> items[key] == before[key]
        invariant evictions == old(evictions) + |before| - |items|
        decreases todo
      {
        var key :| key in todo;
        todo := todo - {key};
        if now > items[key].expiration {
          items := items - {key};
          evictions := evictions + 1;
        }
      }
      ReplayMore(history, Clean(now));
      history := history + [Clean(now)];
    }
  }

  // ---------- who is lost to an eviction ----------

  /** A live entry is evicted only when no entry is expired, and then it is one that expires first. */
  lemma EvictionSparesLive(items: Items, now: int, after: Items, key: string)
    requires Evicts(items, now, after) && key in items && key !in after && !Expired(items[key], now)
    ensures key != "" && ExpiresFirst(items, key) && forall other :: other in items ==> !Expired(items[other], now)
  {
  }

  /** What a `Set` may leave. */
  ghost predicate SetLeaves(items: Items, maxSize: int, key: string, item: Item, now: int, after: Items) {
    if Size(items) + Weight(key, item) > maxSize
    then exists kept :: Evicts(items, now, kept) && after == kept[key := item]
    else after == items[key := item]
  }

  ghost predicate HasExpired(items: Items, now: int) {
    exists key :: key in items && Expired(items[key], now)
  }

  /** A `Set` under one key can cost a live entry under another its place exactly when there is no
      room, no expired entry to give up instead, and that entry is one that expires first. */
  lemma LostToSet(items: Items, maxSize: int, key: string, item: Item, now: int, other: string)
    requires other in items && !Expired(items[other], now) && other != key
    ensures (exists after :: SetLeaves(items, maxSize, key, item, now, after) && Lookup(after, other, now) == None) <==>
      Size(items) + |key| + |item.value| > maxSize && other != "" &&
      forall k :: k in items ==> now <= items[k].expiration && items[other].expiration <= items[k].expiration
  {
    assert (!HasExpired(items, now) && ExpiresFirst(items, other)) <==>
      forall k :: k in items ==> now <= items[k].expiration && items[other].expiration <= items[k].expiration;
    if Size(items) + Weight(key, item) > maxSize && !HasExpired(items, now) && ExpiresFirst(items, other) && other != "" {
      var after := (items - {other})[key := item];
      assert Evicts(items, now, items - {other});
      assert SetLeaves(items, maxSize, key, item, now, after) && Lookup(after, other, now) == None;
    }
    forall after | SetLeaves(items, maxSize, key, item, now, after) && Lookup(after, other, now) == None
      ensures Size(items) + Weight(key, item) > maxSize && !HasExpired(items, now) && ExpiresFirst(items, other) && other != ""
    {
      if Size(items) + Weight(key, item) > maxSize {
        var kept :| Evicts(items, now, kept) && after == kept[key := item];
        EvictionSparesLive(items, now, kept, other);
      }
    }
  }

  // ---------- is cleanup observable? ----------

  /** Two caches that differ only in expired entries. */
  ghost predicate Alike(a: Items, b: Items, now: int) {
    (forall key :: key in a ==> (key in b && b[key] == a[key]) || Expired(a[key], now)) &&
    (forall key :: key in b ==> (key in a && a[key] == b[key]) || Expired(b[key], now))
  }

  /** That is to say, caches that no lookup from now on can tell apart. */
  lemma AlikeLookup(a: Items, b: Items, now: int)
    ensures Alike(a, b, now) <==> forall key, later :: later >= now ==> Lookup(a, key, later) == Lookup(b, key, later)
  {
    if forall key, later :: later >= now ==> Lookup(a, key, later) == Lookup(b, key, later) {
      LiveShared(a, b, now);
      LiveShared(b, a, now);
    }
  }

  lemma LiveShared(a: Items, b: Items, now: int)
    requires forall key, later :: later >= now ==> Lookup(a, key, later) == Lookup(b, key, later)
    ensures forall key :: key in a ==> (key in b && b[key] == a[key]) || Expired(a[key], now)
  {
    forall key | key in a && !Expired(a[key], now) ensures key in b && b[key] == a[key] {
      assert Lookup(a, key, now) == Lookup(b, key, now);
      assert Lookup(a, key, a[key].expiration) == Lookup(b, key, a[key].expiration);
      assert Lookup(a, key, b[key].expiration) == Lookup(b, key, b[key].expiration);
    }
  }

  /** No outcome of the `Set` loses a live entry: there is room, or an expired entry is given up, or
      the entry given up is passed over or overwritten anyway. */
  ghost predicate Spares(items: Items, maxSize: int, key: string, item: Item, now: int) {
    Size(items) + Weight(key, item) <= maxSize || HasExpired(items, now) ||
    forall other :: other in items && ExpiresFirst(items, other) ==> other == "" || other == key
  }

  /** No two entries expire first. */
  ghost predicate OneVictim(items: Items) {
    forall a, b :: a in items && b in items && ExpiresFirst(items, a) && ExpiresFirst(items, b) ==> a == b
  }

  /** The condition under which a `Set` cannot make a difference between two caches. */
  ghost predicate SetSafe(a: Items, b: Items, maxSize: int, key: string, item: Item, now: int) {
    (Spares(a, maxSize, key, item, now) && Spares(b, maxSize, key, item, now)) || (a == b && OneVictim(a))
  }

  lemma SparedIsPut(items: Items, maxSize: int, key: string, item: Item, now: int, after: Items)
    requires Spares(items, maxSize, key, item, now) && SetLeaves(items, maxSize, key, item, now, after)
    ensures Alike(after, items[key := item], now)
  {
    hide Size, Weight;
    if Size(items) + Weight(key, item) > maxSize {
      var kept :| Evicts(items, now, kept) && after == kept[key := item];
      forall other | other in items && other !in kept ensures other == key || Expired(items[other], now) {
        if !Expired(items[other], now) { EvictionSparesLive(items, now, kept, other); }
      }
    }
  }

  lemma PutAlike(a: Items, b: Items, key: string, item: Item, now: int, nextA: Items, nextB: Items)
    requires Alike(a, b, now) && Alike(nextA, a[key := item], now) && Alike(nextB, b[key := item], now)
    ensures Alike(nextA, nextB, now)
  {
    hide Expired;
  }

  /** A `Set` that does not spare gives up, in some outcome, a live entry other than its own. */
  lemma CostlySet(items: Items, maxSize: int, key: string, item: Item, now: int) returns (victim: string, after: Items)
    requires !Spares(items, maxSize, key, item, now)
    ensures victim in items && victim != key && victim != "" && ExpiresFirst(items, victim) && !Expired(items[victim], now)
    ensures after == (items - {victim})[key := item] && SetLeaves(items, maxSize, key, item, now, after)
  {
    victim :| victim in items && ExpiresFirst(items, victim) && victim != "" && victim != key;
    after := (items - {victim})[key := item];
    assert Evicts(items, now, items - {victim});
  }

  /** Some outcome there always is; and when there is an expired entry to give up, or a second one
      that expires first, then one that keeps a given live entry. */
  lemma KeepingSet(items: Items, maxSize: int, key: string, item: Item, now: int, live: string) returns (after: Items)
    requires live in items && live != key && !Expired(items[live], now)
    requires HasExpired(items, now) || (exists other :: other in items && other != live && ExpiresFirst(items, other))
    ensures SetLeaves(items, maxSize, key, item, now, after) && live in after && after[live] == items[live]
  {
    if Size(items) + Weight(key, item) <= maxSize {
      after := items[key := item];
    } else {
      var other :| other in items && other != live &&
        if HasExpired(items, now) then Expired(items[other], now) else ExpiresFirst(items, other);
      var kept := if !HasExpired(items, now) && other == "" then items else items - {other};
      assert Evicts(items, now, kept);
      after := kept[key := item];
    }
  }

  /** Caches that are alike and hold live entries only are equal. */
  lemma LiveAlikeEqual(a: Items, b: Items, now: int)
    requires Alike(a, b, now) && !HasExpired(a, now) && !HasExpired(b, now)
    ensures a == b
  {
    assert a.Keys == b.Keys;
  }

  /** If one of two caches does not spare and they are not equal, a `Set` can tell them apart. */
  lemma UnsparedDiffers(a: Items, b: Items, maxSize: int, key: string, item: Item, now: int)
    returns (nextA: Items, nextB: Items)
    requires Alike(a, b, now) && a != b && !Spares(b, maxSize, key, item, now)
    ensures SetLeaves(a, maxSize, key, item, now, nextA) && SetLeaves(b, maxSize, key, item, now, nextB)
    ensures !Alike(nextA, nextB, now)
  {
    var victim: string;
    victim, nextB := CostlySet(b, maxSize, key, item, now);
    if !HasExpired(a, now) { LiveAlikeEqual(a, b, now); }
    nextA := KeepingSet(a, maxSize, key, item, now, victim);
  }

  lemma SymmetricAlike(a: Items, b: Items, now: int)
    requires Alike(a, b, now)
    ensures Alike(b, a, now)
  {
  }

  ghost predicate AlwaysAlike(a: Items, b: Items, maxSize: int, key: string, item: Item, now: int) {
    forall nextA, nextB ::
      SetLeaves(a, maxSize, key, item, now, nextA) && SetLeaves(b, maxSize, key, item, now, nextB) ==> Alike(nextA, nextB, now)
  }

  /** A `Set` keeps two caches that are alike so, whatever it evicts, if and only if it costs neither
      of them a live entry, or they are equal and there is no choice of what to evict. */
  lemma SetKeepsAlike(a: Items, b: Items, maxSize: int, key: string, item: Item, now: int)
    requires Alike(a, b, now)
    ensures AlwaysAlike(a, b, maxSize, key, item, now) <==> SetSafe(a, b, maxSize, key, item, now)
  {
    if Spares(a, maxSize, key, item, now) && Spares(b, maxSize, key, item, now) {
      forall nextA, nextB | SetLeaves(a, maxSize, key, item, now, nextA) && SetLeaves(b, maxSize, key, item, now, nextB)
        ensures Alike(nextA, nextB, now)
      {
        SparedIsPut(a, maxSize, key, item, now, nextA);
        SparedIsPut(b, maxSize, key, item, now, nextB);
        PutAlike(a, b, key, item, now, nextA, nextB);
      }
    } else if a == b {
      SetOfOne(a, maxSize, key, item, now);
    } else if !Spares(b, maxSize, key, item, now) {
      var nextA, nextB := UnsparedDiffers(a, b, maxSize, key, item, now);
    } else {
      SymmetricAlike(a, b, now);
      var nextB, nextA := UnsparedDiffers(b, a, maxSize, key, item, now);
      if Alike(nextA, nextB, now) { SymmetricAlike(nextA, nextB, now); }
    }
  }

  /** One cache, no room and nothing to spare: the outcomes agree exactly when there is one victim. */
  lemma SetOfOne(items: Items, maxSize: int, key: string, item: Item, now: int)
    requires !Spares(items, maxSize, key, item, now)
    ensures AlwaysAlike(items, items, maxSize, key, item, now) <==> OneVictim(items)
  {
    hide AlwaysAlike, OneVictim, Spares;
    if OneVictim(items) {
      OneVictimAgrees(items, maxSize, key, item, now);
    } else {
      TwoVictimsDiffer(items, maxSize, key, item, now);
    }
  }

  lemma OneVictimAgrees(items: Items, maxSize: int, key: string, item: Item, now: int)
    requires !Spares(items, maxSize, key, item, now) && OneVictim(items)
    ensures AlwaysAlike(items, items, maxSize, key, item, now)
  {
    var victim, after := CostlySet(items, maxSize, key, item, now);
    hide SetLeaves, Spares, OneVictim, Alike;
    forall a, b | SetLeaves(items, maxSize, key, item, now, a) && SetLeaves(items, maxSize, key, item, now, b)
      ensures Alike(a, b, now)
    {
      OnlyOutcome(items, maxSize, key, item, now, victim, a);
      OnlyOutcome(items, maxSize, key, item, now, victim, b);
      SelfAlike(a, now);
    }
  }

  lemma TwoVictimsDiffer(items: Items, maxSize: int, key: string, item: Item, now: int)
    requires !Spares(items, maxSize, key, item, now) && !OneVictim(items)
    ensures !AlwaysAlike(items, items, maxSize, key, item, now)
  {
    var victim, after := CostlySet(items, maxSize, key, item, now);
    var other :| other in items && ExpiresFirst(items, other) && other != victim;
    var kept := KeepingSet(items, maxSize, key, item, now, victim);
    hide SetLeaves, Spares, OneVictim, Alike, ExpiresFirst;
    MissingDiffers(after, kept, now, victim);
  }

  lemma MissingDiffers(a: Items, b: Items, now: int, key: string)
    requires key !in a && key in b && !Expired(b[key], now)
    ensures !Alike(a, b, now)
  {
  }

  lemma OnlyOutcome(items: Items, maxSize: int, key: string, item: Item, now: int, victim: string, after: Items)
    requires !Spares(items, maxSize, key, item, now) && OneVictim(items)
    requires victim in items && ExpiresFirst(items, victim) && victim != ""
    requires SetLeaves(items, maxSize, key, item, now, after)
    ensures after == (items - {victim})[key := item]
  {
    var kept :| Evicts(items, now, kept) && after == kept[key := item];
  }

  lemma SparesMeaning(items: Items, maxSize: int, key: string, item: Item, now: int)
    ensures Spares(items, maxSize, key, item, now) <==>
      Size(items) + |key| + |item.value| <= maxSize || (exists k :: k in items && now > items[k].expiration) ||
      forall k :: k in items && k != "" && k != key ==>
        exists other :: other in items && items[other].expiration < items[k].expiration
  {
  }

  lemma NothingCleaned(items: Items, now: int)
    requires !HasExpired(items, now)
    ensures Cleaned(items, now) == items
  {
  }

  /** A cleanup that drops something, and then a `Set`: the cleanup makes no difference to any later
      lookup if and only if the cleaned cache spares its live entries. */
  lemma CleanupBeforeSet(items: Items, t: int, maxSize: int, key: string, item: Item, now: int)
    requires t <= now && Cleaned(items, t) != items
    ensures var cleaned := Cleaned(items, t);
      AlwaysAlike(items, cleaned, maxSize, key, item, now) <==>
        Size(cleaned) + |key| + |item.value| <= maxSize || (exists k :: k in cleaned && now > cleaned[k].expiration) ||
        forall k :: k in cleaned && k != "" && k != key ==>
          exists other :: other in cleaned && cleaned[other].expiration < cleaned[k].expiration
  {
    SparesMeaning(Cleaned(items, t), maxSize, key, item, now);
    if !HasExpired(items, t) { NothingCleaned(items, t); }
    SetKeepsAlike(items, Cleaned(items, t), maxSize, key, item, now);
  }

  // ---------- cleanups in whole runs ----------

  datatype Call =
    | Write(key: string, value: string, ttl: int)
    | WriteAll(values: map<string, string>, ttl: int)
    | Remove(key: string)
    | RemoveAll
    | Sweep

  datatype Event = Event(call: Call, time: int)

  function NewItem(e: Event): Item
    requires e.call.Write?
  {
    Item(e.call.value, e.time + Ttl(e.call.ttl))
  }

  /** What an event may leave; a sweep that is not made leaves everything. */
  ghost predicate Leaves(items: Items, e: Event, sweeps: bool, maxSize: int, after: Items) {
    match e.call
    case Write(key, _, _) => SetLeaves(items, maxSize, key, NewItem(e), e.time, after)
    case WriteAll(values, ttl) => after == items + Stamped(values, values.Keys, e.time + Ttl(ttl))
    case Remove(key) => after == items - {key}
    case RemoveAll => after == map[]
    case Sweep => after == if sweeps then Cleaned(items, e.time) else items
  }

  lemma WriteLeaves(items: Items, key: string, value: string, ttl: int, now: int, maxSize: int, after: Items)
    requires SetLeaves(items, maxSize, key, Item(value, now + Ttl(ttl)), now, after)
    ensures Leaves(items, Event(Write(key, value, ttl), now), false, maxSize, after)
  {
  }

  /** The clock does not go back. */
  predicate InTime(events: seq<Event>) {
    forall i, j :: 0 <= i < j < |events| ==> events[i].time <= events[j].time
  }

  /** A run of the cache through the events, with cleanups at the places in `swept` only. */
  ghost predicate Passes(states: seq<Items>, events: seq<Event>, swept: set<nat>, maxSize: int) {
    |states| == |events| + 1 &&
    forall i: nat :: i < |events| ==> Leaves(states[i], events[i], i in swept, maxSize, states[i + 1])
  }

  ghost predicate SafeAt(a: Items, b: Items, e: Event, maxSize: int) {
    e.call.Write? ==> SetSafe(a, b, maxSize, e.call.key, NewItem(e), e.time)
  }

  lemma LaterAlike(a: Items, b: Items, now: int, later: int)
    requires Alike(a, b, now) && now <= later
    ensures Alike(a, b, later)
  {
  }

  lemma StepAlike(a: Items, b: Items, e: Event, sweepsA: bool, sweepsB: bool, maxSize: int, nextA: Items, nextB: Items)
    requires Alike(a, b, e.time) && SafeAt(a, b, e, maxSize)
    requires Leaves(a, e, sweepsA, maxSize, nextA) && Leaves(b, e, sweepsB, maxSize, nextB)
    ensures Alike(nextA, nextB, e.time)
  {
    hide SetSafe, SetLeaves;
    if e.call.Write? { SetKeepsAlike(a, b, maxSize, e.call.key, NewItem(e), e.time); }
  }

  /** Two runs through the same calls, with cleanups in different places: as long as every `Set` so
      far was safe, no lookup can tell them apart; and the next `Set` can make a difference, by what
      it evicts, if and only if it is not safe. */
  lemma {:induction false} CleanupsUnseen(events: seq<Event>, maxSize: int, a: seq<Items>, sweptA: set<nat>,
                                          b: seq<Items>, sweptB: set<nat>, n: nat, now: int)
    requires InTime(events) && Passes(a, events, sweptA, maxSize) && Passes(b, events, sweptB, maxSize)
    requires a[0] == b[0] && n <= |events| && (n > 0 ==> events[n - 1].time <= now)
    requires forall i: nat :: i < n ==> SafeAt(a[i], b[i], events[i], maxSize)
    ensures Alike(a[n], b[n], now)
    ensures forall key, later :: later >= now ==> Lookup(a[n], key, later) == Lookup(b[n], key, later)
    ensures forall key, item: Item ::
      AlwaysAlike(a[n], b[n], maxSize, key, item, now) <==> SetSafe(a[n], b[n], maxSize, key, item, now)
  {
    hide Leaves, SafeAt, SetSafe, Alike, AlwaysAlike, Lookup;
    if n == 0 {
      SelfAlike(a[0], now);
    } else {
      var e := events[n - 1];
      CleanupsUnseen(events, maxSize, a, sweptA, b, sweptB, n - 1, e.time);
      StepAlike(a[n - 1], b[n - 1], e, n - 1 in sweptA, n - 1 in sweptB, maxSize, a[n], b[n]);
      LaterAlike(a[n], b[n], e.time, now);
    }
    AlikeLookup(a[n], b[n], now);
    forall key, item: Item
      ensures AlwaysAlike(a[n], b[n], maxSize, key, item, now) <==> SetSafe(a[n], b[n], maxSize, key, item, now)
    {
      SetKeepsAlike(a[n], b[n], maxSize, key, item, now);
    }
  }

  lemma SelfAlike(items: Items, now: int)
    ensures Alike(items, items, now)
  {
  }

  /** With eviction the law fails: a live entry can be lost because of a cleanup. In a full cache with
      one expired entry a `Set` gives up that entry; after a cleanup it has to give up a live one. */
  lemma CleanupCostsLiveEntry(now: int)
    requires now > 1
    ensures var live, stale, added := Item("12345", now + 1), Item("", now - 1), Item("67890", now + HOUR);
      var items := map["a" := live, "b" := stale];
      && (forall after :: SetLeaves(items, 11, "c", added, now, after) ==> Lookup(after, "a", now) == Some("12345"))
      && (forall after :: SetLeaves(Cleaned(items, now), 11, "c", added, now, after) ==> Lookup(after, "a", now) == None)
  {
    var live, stale, added := Item("12345", now + 1), Item("", now - 1), Item("67890", now + HOUR);
    var items := map["a" := live, "b" := stale];
    assert Cleaned(items, now) == map["a" := live];
    SizeWithout(items, "b");
    assert items - {"b"} == map["a" := live];
    SizeWithout(map["a" := live], "a");
    assert map["a" := live] - {"a"} == map[];
    assert Size(map["a" := live]) == 6 && Size(items) == 7;
  }

  /** `GetMulti` and `Get` differ on a stored key at one instant only: that of its expiry. */
  lemma MultiDiffersAtExpiry(items: Items, key: string, now: int)
    ensures (key in items && now < items[key].expiration) <==>
      Lookup(items, key, now).Some? && now != items[key].expiration
  {
  }
}
