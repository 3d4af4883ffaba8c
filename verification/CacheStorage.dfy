/** packages/cache/src/cache.ts: CacheStorage (TTL, size bound, lazy expiry, garbage collection). */
module CacheStorage {
  import opened Common

  /** One Map entry. Times are milliseconds of one clock. */
  datatype Entry<V> = Entry(key: string, value: V, timestamp: int)

  /** 0 stands for an option that is not set, which the code cannot tell from 0. */
  datatype Options = Options(ttl: nat, maxSize: nat, enableStats: bool)

  datatype Stats = Stats(hits: nat, misses: nat, evictions: nat, sets: nat)

  /** The Map's entries in insertion order, and the counters. */
  datatype Store<V> = Store(entries: seq<Entry<V>>, stats: Stats)

  /** The selections that the operations make among entries. */
  datatype Pick = Alive(now: int, ttl: nat) | OtherKey(key: string) | OtherPrefix(prefix: string)

  predicate Passes<V>(e: Entry<V>, p: Pick) {
    match p
    case Alive(now, ttl) => ttl == 0 || now - e.timestamp <= ttl
    case OtherKey(key) => e.key != key
    case OtherPrefix(prefix) => !(prefix <= e.key)
  }

  function Keep<V>(es: seq<Entry<V>>, p: Pick): (r: seq<Entry<V>>)
    ensures |r| <= |es|
  {
    if es == [] then []
    else if Passes(es[0], p) then [es[0]] + Keep(es[1..], p)
    else Keep(es[1..], p)
  }

  /** `Map.get`. */
  function Lookup<V>(es: seq<Entry<V>>, key: string): (r: Option<Entry<V>>)
    ensures r.Some? ==> r.value in es && r.value.key == key
    ensures r.None? ==> forall e :: e in es ==> e.key != key
  {
    if es == [] then None
    else if es[0].key == key then Some(es[0])
    else Lookup(es[1..], key)
  }

  /** `setCachedMethod` on the entries: the key's old entry goes, then the oldest one if the store is
      full, and the new one is appended. */
  function Put<V>(o: Options, es: seq<Entry<V>>, key: string, value: V, now: int): (r: seq<Entry<V>>)
  {
    var rest := Keep(es, OtherKey(key));
    (if Full(o, rest) then rest[1..] else rest) + [Entry(key, value, now)]
  }

  predicate Full<V>(o: Options, es: seq<Entry<V>>)
    ensures Full(o, es) ==> es != []
  {
    o.maxSize != 0 && |es| >= o.maxSize
  }

  /** `deleteCachedMethod`: a key that ends in `$` is stripped of it and taken as a prefix. */
  function Deleting(key: string): (r: Pick) {
    if key != "" && key[|key| - 1] == '$' then OtherPrefix(key[..|key| - 1]) else OtherKey(key)
  }

  predicate Expired<V>(o: Options, e: Entry<V>, now: int) {
    !Passes(e, Alive(now, o.ttl))
  }

  function Bump(o: Options, stats: Stats, evicted: nat): (r: Stats) {
    if o.enableStats then stats.(evictions := stats.evictions + evicted) else stats
  }

  // ---- the store's operations ----

  function StoreHas<V>(o: Options, s: Store<V>, key: string, now: int): (r: (Store<V>, bool)) {
    match Lookup(s.entries, key)
    case None => (s, false)
    case Some(e) =>
      if Expired(o, e, now) then (Store(Keep(s.entries, OtherKey(key)), Bump(o, s.stats, 1)), false)
      else (s, true)
  }

  function GetValue<V>(s: Store<V>, key: string): (r: Option<V>) {
    match Lookup(s.entries, key) case None => None case Some(e) => Some(e.value)
  }

  /** An entry lives for `ttl` milliseconds after it was written, the last one included, or for ever without a `ttl`. */
  predicate Lives(o: Options, written: int, now: int) {
    o.ttl == 0 || now - written <= o.ttl
  }

  /** An entry for the key that still lives. */
  predicate HasLive<V>(o: Options, es: seq<Entry<V>>, key: string, now: int) {
    exists i :: 0 <= i < |es| && es[i].key == key && Lives(o, es[i].timestamp, now)
  }

  /** What a deletion is aimed at: a key ending in `$` at all keys that start with what is before the `$`, any other
      key at itself. */
  predicate Hits(key: string, k: string) {
    if key != "" && key[|key| - 1] == '$' then key[..|key| - 1] <= k else k == key
  }

  /** Asking finds exactly the live entries, and an expired one is gone for the read that follows. */
  lemma HasMeans<V>(o: Options, s: Store<V>, key: string, now: int)
    requires DistinctKeys(s.entries)
    ensures var (s', found) := StoreHas(o, s, key, now);
            && (found <==> HasLive(o, s.entries, key, now))
            && GetValue(s', key) == if found then GetValue(s, key) else None
  {
    var cached := Lookup(s.entries, key);
    if cached.Some? {
      var i :| 0 <= i < |s.entries| && s.entries[i] == cached.value;
      assert forall j :: 0 <= j < |s.entries| && s.entries[j].key == key ==> j == i;
    }
    KeepDrops(s.entries, OtherKey(key));
  }

  function StoreSet<V>(o: Options, s: Store<V>, key: string, value: V, now: int): (r: Store<V>) {
    var evicted := if Full(o, Keep(s.entries, OtherKey(key))) then 1 else 0;
    var stats := Bump(o, s.stats, evicted);
    Store(Put(o, s.entries, key, value, now), if o.enableStats then stats.(sets := stats.sets + 1) else stats)
  }

  function StoreDelete<V>(s: Store<V>, key: string): (r: Store<V>) {
    s.(entries := Keep(s.entries, Deleting(key)))
  }

  function StoreCollect<V>(o: Options, s: Store<V>, now: int): (r: Store<V>) {
    var kept := Keep(s.entries, Alive(now, o.ttl));
    Store(kept, Bump(o, s.stats, |s.entries| - |kept|))
  }

  /** At most one entry a key, as in any Map. */
  ghost predicate DistinctKeys<V>(es: seq<Entry<V>>) {
    forall i, j :: 0 <= i < j < |es| ==> es[i].key != es[j].key
  }

  // ---- the class ----

  class Storage<V> {
    var entries: seq<Entry<V>>
    var stats: Stats
    const options: Options

    ghost function State(): (r: Store<V>)
      reads this
    {
      Store(entries, stats)
    }

    constructor (options: Options)
      ensures State() == Store([], Stats(0, 0, 0, 0)) && this.options == options
    {
      this.options := options;
      entries, stats := [], Stats(0, 0, 0, 0);
    }

    /** `Map.delete`. */
    method Remove(key: string)
      requires DistinctKeys(entries)
      modifies this`entries
      ensures entries == Keep(old(entries), OtherKey(key)) && DistinctKeys(entries)
    {
      KeepDistinct(entries, OtherKey(key));
      for i := 0 to |entries|
        invariant forall k :: 0 <= k < i ==> entries[k].key != key
        invariant entries == old(entries)
      {
        if entries[i].key == key {
          KeepAllButOne(entries, i);
          entries := entries[..i] + entries[i + 1..];
          return;
        }
      }
      KeepAll(entries, OtherKey(key));
    }

    method HasCachedMethod(key: string, now: int) returns (exists': bool)
      requires DistinctKeys(entries)
      modifies this
      ensures DistinctKeys(entries)
      ensures (State(), exists') == StoreHas(options, old(State()), key, now)
      ensures exists' <==> HasLive(options, old(entries), key, now)
      ensures forall e :: e in entries <==> e in old(entries) && (e.key == key ==> exists')
      ensures stats == if options.enableStats && |entries| < |old(entries)|
                       then old(stats).(evictions := old(stats).evictions + 1) else old(stats)
    {
      KeepDrops(entries, OtherKey(key));
      HasMeans(options, State(), key, now);
      var cached := Lookup(entries, key);
      exists' := cached.Some?;
      if options.ttl != 0 && exists' {
        if now - cached.value.timestamp > options.ttl {
          RemoveOne(entries, key);
          Remove(key);
          if options.enableStats {
            stats := stats.(evictions := stats.evictions + 1);
          }
          return false;
        }
      }
    }

    method SetCachedMethod(key: string, value: V, now: int)
      requires DistinctKeys(entries)
      modifies this
      ensures DistinctKeys(entries)
      ensures State() == StoreSet(options, old(State()), key, value, now)
      ensures !options.enableStats ==> stats == old(stats)
      ensures options.enableStats ==>
        && stats.sets == old(stats).sets + 1 && stats.hits == old(stats).hits && stats.misses == old(stats).misses
        && stats.evictions - old(stats).evictions == |Keep(old(entries), OtherKey(key))| + 1 - |entries|
    {
      PutDistinct(options, entries, key, value, now);
      Remove(key);
      if options.maxSize != 0 && |entries| >= options.maxSize {
        entries := entries[1..];
        if options.enableStats {
          stats := stats.(evictions := stats.evictions + 1);
        }
      }
      entries := entries + [Entry(key, value, now)];
      if options.enableStats {
        stats := stats.(sets := stats.sets + 1);
      }
    }

    /** The value stored under the key, expired or not. */
    method GetCachedMethod(key: string) returns (value: Option<V>)
      requires DistinctKeys(entries)
      ensures value == GetValue(State(), key)
      ensures value.None? <==> forall e :: e in entries ==> e.key != key
      ensures forall e :: e in entries && e.key == key ==> value == Some(e.value)
    {
      var cached := Lookup(entries, key);
      if cached.Some? { return Some(cached.value.value); }
      return None;
    }

    /** The two scanning loops delete while they iterate over the Map. */
    method Scan(p: Pick) returns (dropped: nat)
      requires DistinctKeys(entries)
      modifies this`entries
      ensures DistinctKeys(entries)
      ensures entries == Keep(old(entries), p) && dropped == |old(entries)| - |entries|
    {
      ghost var all := entries;
      ghost var kept: seq<Entry<V>> := [];
      var i := 0;
      dropped := 0;
      while i < |entries|
        invariant i == |kept| <= |entries| && entries[..i] == kept
        invariant Keep(all, p) == kept + Keep(entries[i..], p)
        invariant dropped == |all| - |entries|
        decreases |entries| - i
      {
        if Passes(entries[i], p) {
          ScanKeeps(entries, kept, i, p);
          kept := kept + [entries[i]];
          i := i + 1;
        } else {
          ScanDrops(entries, kept, i, p);
          entries := entries[..i] + entries[i + 1..];
          dropped := dropped + 1;
        }
      }
      assert entries[i..] == [] && entries[..i] == entries;
      assert entries == Keep(all, p);
      KeepDistinct(all, p);
    }

    method DeleteCachedMethod(key: string)
      requires DistinctKeys(entries)
      modifies this
      ensures DistinctKeys(entries)
      ensures State() == StoreDelete(old(State()), key)
      ensures forall e :: e in entries <==> e in old(entries) && !Hits(key, e.key)
      ensures stats == old(stats)
    {
      KeepDrops(entries, Deleting(key));
      if key != "" && key[|key| - 1] == '$' {
        var _ := Scan(OtherPrefix(key[..|key| - 1]));
      } else {
        Remove(key);
      }
    }

    method GarbageCollect(now: int)
      requires DistinctKeys(entries)
      modifies this
      ensures DistinctKeys(entries)
      ensures State() == StoreCollect(options, old(State()), now)
      ensures forall e :: e in entries <==> e in old(entries) && Lives(options, e.timestamp, now)
      ensures stats == if options.enableStats
                       then old(stats).(evictions := old(stats).evictions + |old(entries)| - |entries|) else old(stats)
    {
      KeepDrops(entries, Alive(now, options.ttl));
      if options.ttl != 0 {
        var evicted := Scan(Alive(now, options.ttl));
        if options.enableStats && evicted > 0 {
          stats := stats.(evictions := stats.evictions + evicted);
        }
      } else {
        KeepAll(entries, Alive(now, options.ttl));
      }
    }
  }

  // ---- selections ----

  lemma ScanKeeps<V>(es: seq<Entry<V>>, kept: seq<Entry<V>>, i: nat, p: Pick)
    requires i < |es| && es[..i] == kept && Passes(es[i], p)
    ensures es[..i + 1] == kept + [es[i]]
    ensures kept + Keep(es[i..], p) == (kept + [es[i]]) + Keep(es[i + 1..], p)
  {
    assert es[i..][1..] == es[i + 1..];
  }

  lemma ScanDrops<V>(es: seq<Entry<V>>, kept: seq<Entry<V>>, i: nat, p: Pick)
    requires i < |es| && es[..i] == kept && !Passes(es[i], p)
    ensures (es[..i] + es[i + 1..])[..i] == kept
    ensures Keep(es[i..], p) == Keep((es[..i] + es[i + 1..])[i..], p)
  {
    assert es[i..][1..] == es[i + 1..];
    assert (es[..i] + es[i + 1..])[i..] == es[i + 1..];
  }

  lemma {:induction false} KeepDrops<V>(es: seq<Entry<V>>, p: Pick)
    ensures forall e :: e in Keep(es, p) ==> e in es && Passes(e, p)
    ensures forall e :: e in es && Passes(e, p) ==> e in Keep(es, p)
  {
    if es != [] { KeepDrops(es[1..], p); }
  }

  lemma {:induction false} KeepAll<V>(es: seq<Entry<V>>, p: Pick)
    requires forall e :: e in es ==> Passes(e, p)
    ensures Keep(es, p) == es
  {
    if es != [] { KeepAll(es[1..], p); }
  }

  lemma {:induction false} KeepAppend<V>(a: seq<Entry<V>>, b: seq<Entry<V>>, p: Pick)
    ensures Keep(a + b, p) == Keep(a, p) + Keep(b, p)
  {
    if a == [] {
      assert a + b == b;
    } else {
      assert (a + b)[0] == a[0] && (a + b)[1..] == a[1..] + b;
      KeepAppend(a[1..], b, p);
    }
  }

  lemma {:induction false} KeepCommutes<V>(es: seq<Entry<V>>, p: Pick, q: Pick)
    ensures Keep(Keep(es, p), q) == Keep(Keep(es, q), p)
  {
    if es != [] {
      KeepCommutes(es[1..], p, q);
      var tp, tq := Keep(es[1..], p), Keep(es[1..], q);
      assert ([es[0]] + tp)[1..] == tp && ([es[0]] + tq)[1..] == tq;
    }
  }

  lemma {:induction false} KeepDistinct<V>(es: seq<Entry<V>>, p: Pick)
    requires DistinctKeys(es)
    ensures DistinctKeys(Keep(es, p))
  {
    if es != [] {
      KeepDistinct(es[1..], p);
      KeepDrops(es[1..], p);
      assert forall e :: e in es[1..] ==> e.key != es[0].key;
    }
  }

  lemma {:induction false} KeepAllButOne<V>(es: seq<Entry<V>>, i: nat)
    requires DistinctKeys(es) && i < |es|
    ensures Keep(es, OtherKey(es[i].key)) == es[..i] + es[i + 1..]
  {
    if i == 0 {
      KeepAll(es[1..], OtherKey(es[0].key));
    } else {
      KeepAllButOne(es[1..], i - 1);
      assert es[..i] == [es[0]] + es[1..][..i - 1] && es[i + 1..] == es[1..][i..];
    }
  }

  lemma AppendDistinct<V>(es: seq<Entry<V>>, e: Entry<V>)
    requires DistinctKeys(es) && forall i :: 0 <= i < |es| ==> es[i].key != e.key
    ensures DistinctKeys(es + [e])
  {
  }

  lemma PutDistinct<V>(o: Options, es: seq<Entry<V>>, key: string, value: V, now: int)
    requires DistinctKeys(es)
    ensures DistinctKeys(Put(o, es, key, value, now))
  {
    var rest := Keep(es, OtherKey(key));
    KeepDistinct(es, OtherKey(key));
    KeepDrops(es, OtherKey(key));
    forall i | 0 <= i < |rest| ensures rest[i].key != key {
      assert rest[i] in rest;
    }
    AppendDistinct(if Full(o, rest) then rest[1..] else rest, Entry(key, value, now));
  }

  lemma {:induction false} LookupKept<V>(es: seq<Entry<V>>, p: Pick, key: string)
    requires DistinctKeys(es)
    ensures Lookup(Keep(es, p), key) == match Lookup(es, key)
              case None => None
              case Some(e) => if Passes(e, p) then Some(e) else None
  {
    if es != [] {
      LookupKept(es[1..], p, key);
      var tail := Keep(es[1..], p);
      assert ([es[0]] + tail)[1..] == tail;
      KeepDrops(es[1..], p);
    }
  }

  lemma {:induction false} LookupAppend<V>(a: seq<Entry<V>>, b: seq<Entry<V>>, key: string)
    ensures Lookup(a + b, key) == if Lookup(a, key).Some? then Lookup(a, key) else Lookup(b, key)
  {
    if a == [] {
      assert a + b == b;
    } else {
      assert (a + b)[0] == a[0] && (a + b)[1..] == a[1..] + b;
      LookupAppend(a[1..], b, key);
    }
  }

  /** What a write does to every key: it sets its own, and loses the least recently written other key
      exactly when the other keys fill the store. */
  lemma WriteMeans<V>(o: Options, es: seq<Entry<V>>, key: string, value: V, now: int, k: string)
    requires DistinctKeys(es)
    ensures var others := Keep(es, OtherKey(key));
            Lookup(Put(o, es, key, value, now), k) ==
              if k == key then Some(Entry(key, value, now))
              else if Full(o, others) && others[0].key == k then None
              else Lookup(es, k)
  {
    var others := Keep(es, OtherKey(key));
    KeepDistinct(es, OtherKey(key));
    LookupKept(es, OtherKey(key), k);
    var kept := if Full(o, others) then others[1..] else others;
    LookupAppend(kept, [Entry(key, value, now)], k);
    if Lookup(kept, k).Some? { assert Lookup(kept, k).value in others; }
    if Full(o, others) { assert forall e :: e in others[1..] ==> e.key != others[0].key; }
    KeepDrops(es, OtherKey(key));
  }

  /** The lifetime of a write: asked at any time from then on, the store has the key exactly while it lives, whatever
      it held before and however small it is. */
  lemma WrittenLives<V>(o: Options, s: Store<V>, key: string, value: V, at: int, now: int)
    requires DistinctKeys(s.entries)
    ensures var (after, found) := StoreHas(o, StoreSet(o, s, key, value, at), key, now);
            && (found <==> Lives(o, at, now))
            && GetValue(after, key) == if Lives(o, at, now) then Some(value) else None
  {
    var es := Put(o, s.entries, key, value, at);
    PutDistinct(o, s.entries, key, value, at);
    WriteMeans(o, s.entries, key, value, at, key);
    HasMeans(o, StoreSet(o, s, key, value, at), key, now);
    assert Lookup(es, key) == Some(Entry(key, value, at));
    LookedUp(es, Entry(key, value, at));
  }

  lemma LookedUp<V>(es: seq<Entry<V>>, e: Entry<V>)
    requires DistinctKeys(es) && Lookup(es, e.key) == Some(e)
    ensures exists i :: 0 <= i < |es| && es[i] == e
    ensures forall i :: 0 <= i < |es| && es[i].key == e.key ==> es[i] == e
  {
    var i :| 0 <= i < |es| && es[i] == e;
    assert forall j :: 0 <= j < |es| && es[j].key == e.key ==> j == i;
  }

  // ---- the live view ----

  ghost predicate Ordered<V>(es: seq<Entry<V>>) {
    forall i, j :: 0 <= i < j < |es| ==> es[i].timestamp <= es[j].timestamp
  }

  /** Entries are in the order of their timestamps, none in the future, no key twice, within the bound. */
  ghost predicate Inv<V>(o: Options, es: seq<Entry<V>>, now: int) {
    && DistinctKeys(es)
    && Ordered(es)
    && (forall i :: 0 <= i < |es| ==> es[i].timestamp <= now)
    && (o.maxSize != 0 ==> |es| <= o.maxSize)
  }

  /** What a reader at time `now` can see. */
  function View<V>(o: Options, es: seq<Entry<V>>, now: int): (r: seq<Entry<V>>) {
    Keep(es, Alive(now, o.ttl))
  }

  lemma {:induction false} KeepOrdered<V>(es: seq<Entry<V>>, p: Pick)
    requires Ordered(es)
    ensures Ordered(Keep(es, p))
  {
    if es != [] {
      KeepOrdered(es[1..], p);
      KeepDrops(es[1..], p);
      assert forall e :: e in es[1..] ==> es[0].timestamp <= e.timestamp;
    }
  }

  lemma KeepInv<V>(o: Options, es: seq<Entry<V>>, now: int, p: Pick)
    requires Inv(o, es, now)
    ensures Inv(o, Keep(es, p), now)
  {
    KeepDistinct(es, p);
    KeepOrdered(es, p);
    KeepDrops(es, p);
    var kept := Keep(es, p);
    forall i | 0 <= i < |kept| ensures kept[i].timestamp <= now {
      assert kept[i] in es;
    }
  }

  lemma PutInv<V>(o: Options, es: seq<Entry<V>>, key: string, value: V, now: int)
    requires Inv(o, es, now)
    ensures Inv(o, Put(o, es, key, value, now), now)
  {
    KeepInv(o, es, now, OtherKey(key));
    PutDistinct(o, es, key, value, now);
  }

  /** When the oldest entry is alive, all are: the expired entries form a prefix. */
  lemma OldestAliveAllAlive<V>(o: Options, es: seq<Entry<V>>, now: int)
    requires Inv(o, es, now) && es != [] && !Expired(o, es[0], now)
    ensures View(o, es, now) == es
  {
    KeepAll(es, Alive(now, o.ttl));
  }

  lemma ViewIsLater<V>(o: Options, es: seq<Entry<V>>, now: int, later: int)
    requires now <= later
    ensures View(o, View(o, es, now), later) == View(o, es, later)
  {
    KeepCommutes(es, Alive(now, o.ttl), Alive(later, o.ttl));
    KeepDrops(es, Alive(later, o.ttl));
    KeepAll(View(o, es, later), Alive(now, o.ttl));
  }

  /** A write shows exactly as a write to the live entries alone: what is evicted is the live entry that
      was written longest ago if live entries alone fill the store, and none otherwise. */
  lemma WriteSeesOnlyLiveEntries<V>(o: Options, es: seq<Entry<V>>, key: string, value: V, now: int)
    requires Inv(o, es, now)
    ensures View(o, Put(o, es, key, value, now), now) == Put(o, View(o, es, now), key, value, now)
  {
    var alive := Alive(now, o.ttl);
    var rest := Keep(es, OtherKey(key));
    KeepInv(o, es, now, OtherKey(key));
    KeepCommutes(es, alive, OtherKey(key));
    var live := View(o, rest, now);
    assert live == Keep(View(o, es, now), OtherKey(key));
    var new' := [Entry(key, value, now)];
    KeepAll(new', alive);
    if Full(o, rest) {
      KeepAppend(rest[1..], new', alive);
      if Expired(o, rest[0], now) {
        assert live == View(o, rest[1..], now);
        assert !Full(o, live);
      } else {
        OldestAliveAllAlive(o, rest, now);
        KeepAll(rest[1..], alive);
      }
    } else {
      KeepAppend(rest, new', alive);
      assert !Full(o, live);
    }
  }

  lemma ExpiredIsInvisible<V>(o: Options, es: seq<Entry<V>>, e: Entry<V>, now: int)
    requires DistinctKeys(es) && e in es && Expired(o, e, now)
    ensures View(o, Keep(es, OtherKey(e.key)), now) == View(o, es, now)
  {
    KeepCommutes(es, Alive(now, o.ttl), OtherKey(e.key));
    KeepDrops(es, Alive(now, o.ttl));
    forall f | f in View(o, es, now) ensures f.key != e.key {
      assert f in es && f != e;
    }
    KeepAll(View(o, es, now), OtherKey(e.key));
  }

  // ---- whole runs ----

  /** What a caller can do. `Read` is the lookup the decorator makes: has, then get. */
  datatype Op<V> = Read(key: string) | Write(key: string, value: V) | Delete(key: string) | Collect

  datatype Timed<V> = Timed(at: int, op: Op<V>)

  function Do<V>(o: Options, s: Store<V>, t: Timed<V>): (r: (Store<V>, Option<V>)) {
    match t.op
    case Read(key) =>
      var (s', found) := StoreHas(o, s, key, t.at);
      (s', if found then GetValue(s', key) else None)
    case Write(key, value) => (StoreSet(o, s, key, value, t.at), None)
    case Delete(key) => (StoreDelete(s, key), None)
    case Collect => (StoreCollect(o, s, t.at), None)
  }

  /** The specification holds live entries only, drops them the moment they expire, never collects, and
      evicts its own least recently written entry when it is full. */
  function SpecDo<V>(o: Options, view: seq<Entry<V>>, t: Timed<V>): (r: (seq<Entry<V>>, Option<V>)) {
    var live := View(o, view, t.at);
    match t.op
    case Read(key) => (live, match Lookup(live, key) case None => None case Some(e) => Some(e.value))
    case Write(key, value) => (Put(o, live, key, value, t.at), None)
    case Delete(key) => (Keep(live, Deleting(key)), None)
    case Collect => (live, None)
  }

  function RunStore<V>(o: Options, ts: seq<Timed<V>>): (r: (Store<V>, seq<Option<V>>))
    ensures |r.1| == |ts|
  {
    if ts == [] then (Store([], Stats(0, 0, 0, 0)), []) else
      var before := RunStore(o, ts[..|ts| - 1]);
      var now := Do(o, before.0, ts[|ts| - 1]);
      (now.0, before.1 + [now.1])
  }

  function RunSpec<V>(o: Options, ts: seq<Timed<V>>): (r: (seq<Entry<V>>, seq<Option<V>>))
    ensures |r.1| == |ts|
  {
    if ts == [] then ([], []) else
      var before := RunSpec(o, ts[..|ts| - 1]);
      var now := SpecDo(o, before.0, ts[|ts| - 1]);
      (now.0, before.1 + [now.1])
  }

  ghost predicate ClockRuns<V>(ts: seq<Timed<V>>) {
    forall i, j :: 0 <= i < j < |ts| ==> ts[i].at <= ts[j].at
  }

  lemma StepRefines<V>(o: Options, s: Store<V>, view: seq<Entry<V>>, before: int, t: Timed<V>)
    requires Inv(o, s.entries, before) && before <= t.at && View(o, s.entries, before) == view
    ensures Inv(o, Do(o, s, t).0.entries, t.at)
    ensures View(o, Do(o, s, t).0.entries, t.at) == SpecDo(o, view, t).0
    ensures Do(o, s, t).1 == SpecDo(o, view, t).1
  {
    ViewIsLater(o, s.entries, before, t.at);
    var alive := Alive(t.at, o.ttl);
    match t.op {
      case Read(key) =>
        LookupKept(s.entries, alive, key);
        KeepInv(o, s.entries, t.at, OtherKey(key));
        var found := Lookup(s.entries, key);
        if found.Some? && Expired(o, found.value, t.at) {
          ExpiredIsInvisible(o, s.entries, found.value, t.at);
        }
      case Write(key, value) =>
        PutInv(o, s.entries, key, value, t.at);
        WriteSeesOnlyLiveEntries(o, s.entries, key, value, t.at);
      case Delete(key) =>
        KeepInv(o, s.entries, t.at, Deleting(key));
        KeepCommutes(s.entries, alive, Deleting(key));
      case Collect =>
        KeepInv(o, s.entries, t.at, alive);
        KeepDrops(s.entries, alive);
        KeepAll(Keep(s.entries, alive), alive);
    }
  }

  /** Lazy expiry, garbage collection and eviction are invisible: over every run with a clock that does
      not go back, the store answers every read as the specification does, shows the same ordered
      live entries, and stays within its invariants. */
  lemma {:induction false} StoreRefinesLiveView<V>(o: Options, ts: seq<Timed<V>>)
    requires ClockRuns(ts)
    ensures RunStore(o, ts).1 == RunSpec(o, ts).1
    ensures ts != [] ==> var now := ts[|ts| - 1].at;
              Inv(o, RunStore(o, ts).0.entries, now) && View(o, RunStore(o, ts).0.entries, now) == RunSpec(o, ts).0
  {
    if ts != [] {
      var last := |ts| - 1;
      StoreRefinesLiveView(o, ts[..last]);
      var before := if last == 0 then ts[last].at else ts[last - 1].at;
      StepRefines(o, RunStore(o, ts[..last]).0, RunSpec(o, ts[..last]).0, before, ts[last]);
    }
  }

  // ---- the counters ----

  /** Writes the counters still account for: neither stored nor evicted. */
  function Gone<V>(s: Store<V>): (r: int) {
    s.stats.sets - |s.entries| - s.stats.evictions
  }

  /** How many entries one operation overwrites or deletes by request. */
  function Replaced<V>(s: Store<V>, op: Op<V>): (n: nat) {
    match op
    case Write(key, _) => |s.entries| - |Keep(s.entries, OtherKey(key))|
    case Delete(key) => |s.entries| - |Keep(s.entries, Deleting(key))|
    case _ => 0
  }

  function ReplacedBy<V>(o: Options, ts: seq<Timed<V>>): (n: nat)
  {
    if ts == [] then 0 else
      ReplacedBy(o, ts[..|ts| - 1]) + Replaced(RunStore(o, ts[..|ts| - 1]).0, ts[|ts| - 1].op)
  }

  lemma RemoveOne<V>(es: seq<Entry<V>>, key: string)
    requires DistinctKeys(es) && Lookup(es, key).Some?
    ensures |Keep(es, OtherKey(key))| == |es| - 1
  {
    var i :| 0 <= i < |es| && es[i] == Lookup(es, key).value;
    KeepAllButOne(es, i);
  }

  lemma CountersKeepUp<V>(o: Options, s: Store<V>, t: Timed<V>)
    requires o.enableStats && DistinctKeys(s.entries)
    ensures Gone(Do(o, s, t).0) == Gone(s) + Replaced(s, t.op)
  {
    if t.op.Read? && Lookup(s.entries, t.op.key).Some? {
      RemoveOne(s.entries, t.op.key);
    }
  }

  /** With statistics on, over every run: each write is still stored, was counted as an eviction (of the
      oldest entry, an expired one, or a collected one), or was overwritten or deleted by request. */
  lemma {:induction false} StatsConserve<V>(o: Options, ts: seq<Timed<V>>)
    requires o.enableStats && ClockRuns(ts)
    ensures Gone(RunStore(o, ts).0) == ReplacedBy(o, ts)
  {
    if ts != [] {
      var last := |ts| - 1;
      StatsConserve(o, ts[..last]);
      StoreRefinesLiveView(o, ts[..last]);
      CountersKeepUp(o, RunStore(o, ts[..last]).0, ts[last]);
    }
  }
}
