/** packages/cache/src/cache.ts: CacheMap, and the wrapper, clear and clearAll of createCacheAnnotation
    under the `simple` key strategy. */
module CacheDecorator {
  import opened CacheStorage
  import opened Common
  import Keys = CacheKeys

  // ---- CacheMap: one store per instance key ----

  type Stores<V> = map<int, Store<V>>

  const NO_STATS := Stats(0, 0, 0, 0)

  function MapHas<V>(o: Options, stores: Stores<V>, target: int, key: string, now: int): (r: (Stores<V>, bool)) {
    if target !in stores then (stores, false) else
      var (s, found) := StoreHas(o, stores[target], key, now);
      var s' := if o.enableStats && found then s.(stats := s.stats.(hits := s.stats.hits + 1)) else s;
      (stores[target := s'], found)
  }

  function MapGet<V>(stores: Stores<V>, target: int, key: string): (r: Option<V>) {
    if target in stores then GetValue(stores[target], key) else None
  }

  function MapSet<V>(o: Options, stores: Stores<V>, target: int, key: string, value: V, now: int): (r: Stores<V>) {
    var s := if target in stores then stores[target] else Store([], NO_STATS);
    var isNew := Lookup(s.entries, key).None?;
    var s' := StoreSet(o, s, key, value, now);
    stores[target := if o.enableStats && isNew then s'.(stats := s'.stats.(misses := s'.stats.misses + 1)) else s']
  }

  function MapDelete<V>(stores: Stores<V>, target: int, key: string): (r: Stores<V>) {
    if target in stores then stores[target := StoreDelete(stores[target], key)] else stores
  }

  function MapCollect<V>(o: Options, stores: Stores<V>, now: int): (r: Stores<V>) {
    map target | target in stores :: StoreCollect(o, stores[target], now)
  }

  /** Of every instance's entries those that still live are left. */
  ghost predicate Outlived<V>(o: Options, before: Stores<V>, after: Stores<V>, now: int) {
    && after.Keys == before.Keys
    && forall t :: t in after ==> LeftOver(o, before[t].entries, after[t].entries, now)
  }

  ghost predicate LeftOver<V>(o: Options, before: seq<Entry<V>>, after: seq<Entry<V>>, now: int) {
    && (forall i :: 0 <= i < |after| ==> after[i] in before && Lives(o, after[i].timestamp, now))
    && (forall i :: 0 <= i < |before| && Lives(o, before[i].timestamp, now) ==> before[i] in after)
  }

  /** One write: it is there, counts a miss for a key that had no entry, and leaves other instances alone. */
  ghost predicate WrittenOnce<V>(o: Options, before: Stores<V>, after: Stores<V>, target: int, key: string, value: V) {
    && after.Keys == before.Keys + {target} && MapGet(after, target, key) == Some(value)
    && (forall t :: t in before && t != target ==> after[t] == before[t])
    && after[target].stats.misses == (if target in before then before[target].stats.misses else 0)
         + (if o.enableStats && MapGet(before, target, key) == None then 1 else 0)
  }

  lemma SetMeans<V>(o: Options, stores: Stores<V>, target: int, key: string, value: V, now: int)
    requires target in stores ==> DistinctKeys(stores[target].entries)
    ensures WrittenOnce(o, stores, MapSet(o, stores, target, key, value, now), target, key, value)
  {
    WriteMeans(o, if target in stores then stores[target].entries else [], key, value, now, key);
  }

  /** `targets` is the Map's key order, which garbageCollect follows. */
  class CacheMap<V> {
    var targets: seq<int>
    var stores: Stores<V>
    const options: Options

    ghost predicate Valid()
      reads this
    {
      && (forall i, j :: 0 <= i < j < |targets| ==> targets[i] != targets[j])
      && (forall t :: t in targets <==> t in stores)
      && (forall t :: t in stores ==> DistinctKeys(stores[t].entries))
    }

    constructor (options: Options)
      ensures Valid() && stores == map[] && this.options == options
    {
      this.options := options;
      targets, stores := [], map[];
    }

    method HasCachedMethod(target: int, key: string, now: int) returns (found: bool)
      requires Valid()
      modifies this`stores
      ensures Valid()
      ensures (stores, found) == MapHas(options, old(stores), target, key, now)
      ensures found && options.enableStats ==>
        stores[target].stats == old(stores)[target].stats.(hits := old(stores)[target].stats.hits + 1)
      ensures found && !options.enableStats ==> stores[target].stats == old(stores)[target].stats
      ensures found <==> target in old(stores) && HasLive(options, old(stores)[target].entries, key, now)
      ensures MapGet(stores, target, key) == if found then MapGet(old(stores), target, key) else None
      ensures stores.Keys == old(stores).Keys && forall t :: t in stores && t != target ==> stores[t] == old(stores)[t]
    {
      if target !in stores { return false; }
      var s, exists' := StoreHas(options, stores[target], key, now).0, StoreHas(options, stores[target], key, now).1;
      KeepDistinct(stores[target].entries, OtherKey(key));
      HasMeans(options, stores[target], key, now);
      if options.enableStats && exists' {
        s := s.(stats := s.stats.(hits := s.stats.hits + 1));
      }
      stores := stores[target := s];
      return exists';
    }

    method SetCachedMethod(target: int, key: string, value: V, now: int)
      requires Valid()
      modifies this
      ensures Valid()
      ensures stores == MapSet(options, old(stores), target, key, value, now)
      ensures WrittenOnce(options, old(stores), stores, target, key, value)
    {
      SetMeans(options, stores, target, key, value, now);
      if target !in stores {
        targets := targets + [target];
        stores := stores[target := Store([], NO_STATS)];
      }
      var cache := stores[target];
      PutDistinct(options, cache.entries, key, value, now);
      var isNewEntry := Lookup(cache.entries, key).None?;
      cache := StoreSet(options, cache, key, value, now);
      if options.enableStats && isNewEntry {
        cache := cache.(stats := cache.stats.(misses := cache.stats.misses + 1));
      }
      stores := stores[target := cache];
    }

    method GarbageCollect(now: int)
      requires Valid()
      modifies this`stores
      ensures Valid()
      ensures stores == MapCollect(options, old(stores), now)
      ensures Outlived(options, old(stores), stores, now)
    {
      assert forall k :: 0 <= k < |targets| ==> targets[k] in targets;
      for i := 0 to |targets|
        invariant stores == CollectedIn(options, old(stores), targets[..i], now)
      {
        assert targets[i] !in targets[..i] && targets[..i + 1] == targets[..i] + [targets[i]];
        CollectNext(options, old(stores), targets[..i], targets[i], now);
        stores := stores[targets[i] := StoreCollect(options, stores[targets[i]], now)];
      }
      assert targets[..|targets|] == targets;
      AllCollected(options, old(stores), targets, now);
    }
  }

  /** The stores when those of some targets have been collected. */
  function CollectedIn<V>(o: Options, stores: Stores<V>, done: seq<int>, now: int): (r: Stores<V>) {
    map t | t in stores :: if t in done then StoreCollect(o, stores[t], now) else stores[t]
  }

  lemma CollectNext<V>(o: Options, stores: Stores<V>, done: seq<int>, target: int, now: int)
    requires target in stores && target !in done
    ensures var r := CollectedIn(o, stores, done, now);
            CollectedIn(o, stores, done + [target], now) == r[target := StoreCollect(o, r[target], now)]
  {
  }

  lemma AllCollected<V>(o: Options, stores: Stores<V>, done: seq<int>, now: int)
    requires forall t :: t in stores ==> t in done && DistinctKeys(stores[t].entries)
    ensures CollectedIn(o, stores, done, now) == MapCollect(o, stores, now)
    ensures forall t :: t in stores ==> DistinctKeys(MapCollect(o, stores, now)[t].entries)
    ensures Outlived(o, stores, MapCollect(o, stores, now), now)
  {
    var x, y := CollectedIn(o, stores, done, now), MapCollect(o, stores, now);
    assert x.Keys == y.Keys;
    forall t | t in stores
      ensures x[t] == y[t] && DistinctKeys(y[t].entries)
      ensures LeftOver(o, stores[t].entries, y[t].entries, now)
    {
      KeepDrops(stores[t].entries, Alive(now, o.ttl));
      KeepDistinct(stores[t].entries, Alive(now, o.ttl));
    }
  }

  // ---- the decorated methods ----

  /** A call of a decorated method on an instance. */
  datatype Call<+A> = Call(target: int, method': int, args: seq<A>)

  datatype Outcome<+V> = Return(value: V) | Throw(error: string)

  /** What the cache holds for an async method: the pending promise, then the resolved value. */
  datatype Cached<+V> = Ready(value: V) | Promise(id: nat)

  /** The decorated methods of a class, an override and what it overrides counted apart; which of them return promises;
      the name each has; and what the key generator sees of an argument. */
  datatype Class<!A> = Class(options: Options, methods: set<int>, isAsync: set<int>, nameOf: int -> string,
                             view: A -> Keys.Arg)

  /** `started`: every evaluation ever begun; `open`: those whose method has not returned yet; `inFlight`: those whose
      promise was returned and whose handlers have not run. */
  datatype State<A, V> = State(stores: Stores<Cached<V>>, started: seq<Call<A>>, open: set<nat>, inFlight: set<nat>)

  /** A call looks up and, on a miss, evaluates the method; whatever happens until that returns, calls from inside it
      included, comes between `Enter` and `Leave` (a value or exception) or `Suspend` (a promise). */
  datatype Step<A, V> =
    | Enter(call: Call<A>, now: int)
    | Leave(id: nat, outcome: Outcome<V>, now: int)
    | Suspend(id: nat, now: int)
    | Settle(id: nat, outcome: Outcome<V>, now: int)
    | Clear(call: Call<A>)
    | ClearAll(target: int, name: Option<string>)
    | Collect(now: int)

  /** What a caller is given: an outcome, the promise of an evaluation, or, for the time being, an evaluation;
      `KeyRaised` is an exception from making the key. */
  datatype Answer<+V> = Done(outcome: Outcome<V>) | Awaits(id: nat) | Evaluates(id: nat) | KeyRaised | Nothing

  function Views<A>(view: A -> Keys.Arg, args: seq<A>): (views: seq<Keys.Arg>)
    ensures |views| == |args| && forall i :: 0 <= i < |args| ==> views[i] == view(args[i])
  {
    seq(|args|, i requires 0 <= i < |args| => view(args[i]))
  }

  function KeyOf<A>(cls: Class<A>, c: Call<A>): (key: Keys.KeyResult) {
    Keys.MethodKey(cls.nameOf(c.method'), Views(cls.view, c.args))
  }

  /** The wrapper's first lines: a hit answers from the cache. */
  function Hit<A, V>(cls: Class<A>, st: State<A, V>, c: Call<A>, key: string,
                     now: int): (r: (State<A, V>, Option<Cached<V>>)) {
    var (stores, found) := MapHas(cls.options, st.stores, c.target, key, now);
    (st.(stores := stores), if found then MapGet(stores, c.target, key) else None)
  }

  function Evaluate<A, V>(st: State<A, V>, c: Call<A>): (r: (State<A, V>, Answer<V>)) {
    var id := |st.started|;
    (st.(started := st.started + [c], open := st.open + {id}), Evaluates(id))
  }

  function OnEnter<A, V>(cls: Class<A>, st: State<A, V>, c: Call<A>, now: int): (r: (State<A, V>, Answer<V>)) {
    match KeyOf(cls, c)
    case Raised => (st, KeyRaised)
    case NoKey => Evaluate(st, c)
    case Key(key) =>
      var (looked, hit) := Hit(cls, st, c, key, now);
      (match hit
       case Some(Ready(v)) => (looked, Done(Return(v)))
       case Some(Promise(id)) => (looked, Awaits(id))
       case None => Evaluate(looked, c))
  }

  /** The cache entry of a call, if it has a key. */
  function Write<A, V>(cls: Class<A>, st: State<A, V>, c: Call<A>, value: Cached<V>, now: int): (r: State<A, V>) {
    if KeyOf(cls, c).Key? then st.(stores := MapSet(cls.options, st.stores, c.target, KeyOf(cls, c).text, value, now))
    else st
  }

  function Erase<A, V>(cls: Class<A>, st: State<A, V>, c: Call<A>): (r: State<A, V>) {
    if KeyOf(cls, c).Key? then st.(stores := MapDelete(st.stores, c.target, KeyOf(cls, c).text)) else st
  }

  /** `shouldCache` is the predicate option (constantly true when not given). `Clear` of a call without a key throws and
      changes nothing. */
  function Apply<A, V>(cls: Class<A>, shouldCache: V -> bool, st: State<A, V>,
                       step: Step<A, V>): (r: (State<A, V>, Answer<V>))
    requires (step.Leave? || step.Suspend? || step.Settle?) ==> step.id < |st.started|
  {
    match step
    case Enter(c, now) => OnEnter(cls, st, c, now)
    case Leave(id, outcome, now) =>
      var left := st.(open := st.open - {id});
      (if outcome.Return? && shouldCache(outcome.value) then Write(cls, left, st.started[id], Ready(outcome.value), now)
       else left, Done(outcome))
    case Suspend(id, now) =>
      var left := st.(open := st.open - {id}, inFlight := st.inFlight + {id});
      (Write(cls, left, st.started[id], Promise(id), now), Awaits(id))
    case Settle(id, outcome, now) =>
      var settled := st.(inFlight := st.inFlight - {id});
      var c := st.started[id];
      (if outcome.Return? && shouldCache(outcome.value) then Write(cls, settled, c, Ready(outcome.value), now)
       else Erase(cls, settled, c), Nothing)
    case Clear(c) => (Erase(cls, st, c), Nothing)
    case ClearAll(target, name) =>
      var left := if name.None? then st.stores - {target} else MapDelete(st.stores, target, name.value + "$");
      (st.(stores := left), Nothing)
    case Collect(now) => (st.(stores := MapCollect(cls.options, st.stores, now)), Nothing)
  }

  /** `f` is the undecorated method, and pure: an evaluation yields its value, or fails (an async one possibly for
      reasons of its own). */
  predicate Enabled<A, V(==)>(cls: Class<A>, f: Call<A> -> Outcome<V>, st: State<A, V>, step: Step<A, V>) {
    match step
    case Enter(c, _) => c.method' in cls.methods
    case Leave(id, outcome, _) =>
      id in st.open && id < |st.started| && st.started[id].method' !in cls.isAsync && outcome == f(st.started[id])
    case Suspend(id, _) => id in st.open && id < |st.started| && st.started[id].method' in cls.isAsync
    case Settle(id, outcome, _) =>
      id in st.inFlight && id < |st.started| && (outcome.Return? ==> outcome == f(st.started[id]))
    case _ => true
  }

  /** An entry is the value of a call its key stands for, or the promise of a running evaluation of it. */
  ghost predicate EntryOk<A(!new), V(!new)>(cls: Class<A>, f: Call<A> -> Outcome<V>, st: State<A, V>, target: int,
                                            e: Entry<Cached<V>>)
  {
    match e.value
    case Ready(v) => exists c: Call<A> :: StandsFor(cls, c, target, e.key) && f(c) == Return(v)
    case Promise(id) =>
      && id in st.inFlight && id < |st.started|
      && StandsFor(cls, st.started[id], target, e.key) && st.started[id].method' in cls.isAsync
  }

  predicate StandsFor<A>(cls: Class<A>, c: Call<A>, target: int, key: string) {
    c.method' in cls.methods && c.target == target && KeyOf(cls, c) == Keys.Key(key)
  }

  ghost predicate Inv<A(!new), V(!new)>(cls: Class<A>, f: Call<A> -> Outcome<V>, st: State<A, V>) {
    && (forall id :: 0 <= id < |st.started| ==> st.started[id].method' in cls.methods)
    && (forall id :: id in st.inFlight ==> id < |st.started| && st.started[id].method' in cls.isAsync)
    && (forall id :: id in st.open ==> id < |st.started|)
    && EntriesOk(cls, f, st)
  }

  ghost predicate EntriesOk<A(!new), V(!new)>(cls: Class<A>, f: Call<A> -> Outcome<V>, st: State<A, V>) {
    forall target, e :: target in st.stores && e in st.stores[target].entries ==> EntryOk(cls, f, st, target, e)
  }

  /** What each step may give its caller: a call the method's outcome, or the promise or the evaluation of the same
      call. `started` are the evaluations begun so far. */
  predicate Answered<A(==), V(==)>(cls: Class<A>, f: Call<A> -> Outcome<V>, started: seq<Call<A>>, step: Step<A, V>,
                                   a: Answer<V>) {
    match step
    case Enter(c, _) =>
      (match a
       case Done(outcome) => outcome == f(c)
       case Awaits(id) => id < |started| && started[id] == c && c.method' in cls.isAsync
       case Evaluates(id) => id < |started| && started[id] == c
       case _ => false)
    case Leave(id, _, _) => id < |started| && a == Done(f(started[id]))
    case Suspend(id, _) => a == Awaits(id)
    case Settle(id, outcome, _) => id < |started| && (outcome.Return? ==> outcome == f(started[id]))
    case _ => a == Nothing
  }

  /** On one instance the key determines the call, and making it never throws. */
  ghost predicate Distinguishes<A(!new)>(cls: Class<A>) {
    && (forall c: Call<A>, d: Call<A> :: !Clash(cls, c, d))
    && (forall c: Call<A> :: c.method' in cls.methods ==> !KeyOf(cls, c).Raised?)
  }

  /** Two calls on one instance that share a key. */
  predicate Clash<A(==)>(cls: Class<A>, c: Call<A>, d: Call<A>) {
    && c.method' in cls.methods && d.method' in cls.methods && c.target == d.target && c != d
    && KeyOf(cls, c).Key? && KeyOf(cls, c) == KeyOf(cls, d)
  }

  // ---- what the store operations can leave behind ----

  lemma SetLeaves<V>(o: Options, stores: Stores<V>, target: int, key: string, value: V, now: int, t: int, e: Entry<V>)
    requires var after := MapSet(o, stores, target, key, value, now); t in after && e in after[t].entries
    ensures (t == target && e == Entry(key, value, now))
         || (t in stores && e in stores[t].entries && !(t == target && e.key == key))
  {
    var es := if target in stores then stores[target].entries else [];
    KeepDrops(es, OtherKey(key));
  }

  lemma DeleteLeaves<V>(stores: Stores<V>, target: int, key: string, t: int, e: Entry<V>)
    requires var after := MapDelete(stores, target, key); t in after && e in after[t].entries
    ensures t in stores && e in stores[t].entries && !(t == target && e.key == key)
  {
    if target in stores { KeepDrops(stores[target].entries, Deleting(key)); }
  }

  lemma HasLeaves<V>(o: Options, stores: Stores<V>, target: int, key: string, now: int, t: int, e: Entry<V>)
    requires var after := MapHas(o, stores, target, key, now).0; t in after && e in after[t].entries
    ensures t in stores && e in stores[t].entries
  {
    if target in stores { KeepDrops(stores[target].entries, OtherKey(key)); }
  }

  lemma CollectLeaves<V>(o: Options, stores: Stores<V>, now: int, t: int, e: Entry<V>)
    requires var after := MapCollect(o, stores, now); t in after && e in after[t].entries
    ensures t in stores && e in stores[t].entries
  {
    KeepDrops(stores[t].entries, Alive(now, o.ttl));
  }

  // ---- every step keeps the entries in order ----

  lemma EntrySurvives<A(!new), V(!new)>(cls: Class<A>, f: Call<A> -> Outcome<V>, st: State<A, V>, st': State<A, V>,
                                        t: int,
                                        e: Entry<Cached<V>>)
    requires EntryOk(cls, f, st, t, e) && st.started <= st'.started
    requires e.value.Promise? ==> e.value.id in st'.inFlight
    ensures EntryOk(cls, f, st', t, e)
  {
  }

  /** Lookups, deletions and collections only ever remove entries. */
  lemma FewerEntries<A(!new), V(!new)>(cls: Class<A>, f: Call<A> -> Outcome<V>, st: State<A, V>, st': State<A, V>)
    requires EntriesOk(cls, f, st) && st.started <= st'.started && st.inFlight <= st'.inFlight
    requires forall t, e :: t in st'.stores && e in st'.stores[t].entries ==>
               t in st.stores && e in st.stores[t].entries
    ensures EntriesOk(cls, f, st')
  {
    forall t, e | t in st'.stores && e in st'.stores[t].entries ensures EntryOk(cls, f, st', t, e) {
      EntrySurvives(cls, f, st, st', t, e);
    }
  }

  lemma HitKeeps<A(!new), V(!new)>(cls: Class<A>, f: Call<A> -> Outcome<V>, st: State<A, V>, c: Call<A>, key: string,
                                   now: int)
    requires EntriesOk(cls, f, st)
    ensures var (st', hit) := Hit(cls, st, c, key, now);
            && EntriesOk(cls, f, st')
            && (hit.Some? ==> exists e: Entry<Cached<V>> ::
                  e.value == hit.value && e.key == key && EntryOk(cls, f, st, c.target, e))
  {
    var (st', hit) := Hit(cls, st, c, key, now);
    forall t, e | t in st'.stores && e in st'.stores[t].entries ensures t in st.stores && e in st.stores[t].entries {
      HasLeaves(cls.options, st.stores, c.target, key, now, t, e);
    }
    FewerEntries(cls, f, st, st');
    if hit.Some? {
      var e := Lookup(st'.stores[c.target].entries, key).value;
      HasLeaves(cls.options, st.stores, c.target, key, now, c.target, e);
      assert EntryOk(cls, f, st, c.target, e);
    }
  }

  /** Writing an entry that is in order, when all evaluations that are over are of the same call. */
  lemma WriteKeeps<A(!new), V(!new)>(cls: Class<A>, f: Call<A> -> Outcome<V>, st: State<A, V>, mid: State<A, V>,
                                     c: Call<A>,
                                     value: Cached<V>, now: int)
    requires EntriesOk(cls, f, st) && mid.stores == st.stores && st.started == mid.started
    requires forall id :: id in st.inFlight && id !in mid.inFlight ==> id < |st.started| && st.started[id] == c
    requires KeyOf(cls, c).Key? ==> EntryOk(cls, f, mid, c.target, Entry(KeyOf(cls, c).text, value, now))
    ensures EntriesOk(cls, f, Write(cls, mid, c, value, now))
  {
    var st' := Write(cls, mid, c, value, now);
    forall t, e | t in st'.stores && e in st'.stores[t].entries ensures EntryOk(cls, f, st', t, e) {
      if KeyOf(cls, c).Key? {
        SetLeaves(cls.options, st.stores, c.target, KeyOf(cls, c).text, value, now, t, e);
        if t == c.target && e == Entry(KeyOf(cls, c).text, value, now) {
          EntrySurvives(cls, f, mid, st', t, e);
        } else {
          EntrySurvives(cls, f, st, st', t, e);
        }
      } else {
        EntrySurvives(cls, f, st, st', t, e);
      }
    }
  }

  lemma EraseKeeps<A(!new), V(!new)>(cls: Class<A>, f: Call<A> -> Outcome<V>, st: State<A, V>, mid: State<A, V>,
                                     c: Call<A>)
    requires EntriesOk(cls, f, st) && mid.stores == st.stores && st.started == mid.started
    requires forall id :: id in st.inFlight && id !in mid.inFlight ==> id < |st.started| && st.started[id] == c
    ensures EntriesOk(cls, f, Erase(cls, mid, c))
  {
    var st' := Erase(cls, mid, c);
    forall t, e | t in st'.stores && e in st'.stores[t].entries ensures EntryOk(cls, f, st', t, e) {
      if KeyOf(cls, c).Key? { DeleteLeaves(st.stores, c.target, KeyOf(cls, c).text, t, e); }
      EntrySurvives(cls, f, st, st', t, e);
    }
  }

  /** A call entered on a cache in order is given the outcome of its method, the promise of a running evaluation of the
      same call, or an evaluation of its own. */
  lemma EnterIsFaithful<A(!new), V(!new)>(cls: Class<A>, f: Call<A> -> Outcome<V>, st: State<A, V>, c: Call<A>,
                                          now: int)
    requires Distinguishes(cls) && Inv(cls, f, st) && c.method' in cls.methods
    ensures var (st', a) := OnEnter(cls, st, c, now);
            Inv(cls, f, st') && st.started <= st'.started && Answered(cls, f, st'.started, Enter(c, now), a)
  {
    match KeyOf(cls, c) {
      case Raised =>
      case NoKey => EvaluateKeeps(cls, f, st, c);
      case Key(key) =>
        HitKeeps(cls, f, st, c, key, now);
        var (looked, hit) := Hit(cls, st, c, key, now);
        if hit.Some? {
          var e: Entry<Cached<V>> :| e.value == hit.value && e.key == key && EntryOk(cls, f, st, c.target, e);
          EntryAnswers(cls, f, st, c, e);
        } else {
          EvaluateKeeps(cls, f, looked, c);
        }
    }
  }

  lemma EvaluateKeeps<A(!new), V(!new)>(cls: Class<A>, f: Call<A> -> Outcome<V>, st: State<A, V>, c: Call<A>)
    requires Inv(cls, f, st) && c.method' in cls.methods
    ensures Inv(cls, f, Evaluate(st, c).0) && st.started <= Evaluate(st, c).0.started
  {
    FewerEntries(cls, f, st, Evaluate(st, c).0);
  }

  /** With keys that determine calls, an entry under a call's key is about that call. */
  lemma EntryAnswers<A(!new), V(!new)>(cls: Class<A>, f: Call<A> -> Outcome<V>, st: State<A, V>, c: Call<A>,
                                       e: Entry<Cached<V>>)
    requires Distinguishes(cls) && EntryOk(cls, f, st, c.target, e)
    requires c.method' in cls.methods && KeyOf(cls, c) == Keys.Key(e.key)
    ensures e.value.Ready? ==> f(c) == Return(e.value.value)
    ensures e.value.Promise? ==> st.started[e.value.id] == c && c.method' in cls.isAsync
  {
    match e.value {
      case Ready(v) =>
        var d: Call<A> :| StandsFor(cls, d, c.target, e.key) && f(d) == Return(v);
        assert !Clash(cls, c, d);
      case Promise(id) =>
        assert !Clash(cls, c, st.started[id]);
    }
  }

  /** The wrapper's last lines for a sync method: what is stored is the value of the call. */
  lemma LeaveKeeps<A(!new), V(!new)>(cls: Class<A>, f: Call<A> -> Outcome<V>, shouldCache: V -> bool, st: State<A, V>,
                                     id: nat, outcome: Outcome<V>, now: int)
    requires Inv(cls, f, st) && Enabled(cls, f, st, Leave(id, outcome, now))
    ensures Inv(cls, f, Apply(cls, shouldCache, st, Leave(id, outcome, now)).0)
  {
    var c, left := st.started[id], st.(open := st.open - {id});
    FewerEntries(cls, f, st, left);
    if outcome.Return? {
      if KeyOf(cls, c).Key? { assert StandsFor(cls, c, c.target, KeyOf(cls, c).text); }
      WriteKeeps(cls, f, left, left, c, Ready(outcome.value), now);
    }
  }

  lemma SuspendKeeps<A(!new), V(!new)>(cls: Class<A>, f: Call<A> -> Outcome<V>, shouldCache: V -> bool, st: State<A, V>,
                                       id: nat, now: int)
    requires Inv(cls, f, st) && Enabled(cls, f, st, Suspend(id, now))
    ensures Inv(cls, f, Apply(cls, shouldCache, st, Suspend(id, now)).0)
  {
    var c, left := st.started[id], st.(open := st.open - {id}, inFlight := st.inFlight + {id});
    FewerEntries(cls, f, st, left);
    WriteKeeps(cls, f, left, left, c, Promise(id), now);
  }

  /** The handlers of a promise replace its entry by the value, or remove it. */
  lemma SettleKeeps<A(!new), V(!new)>(cls: Class<A>, f: Call<A> -> Outcome<V>, shouldCache: V -> bool, st: State<A, V>,
                                      id: nat, outcome: Outcome<V>, now: int)
    requires Inv(cls, f, st) && Enabled(cls, f, st, Settle(id, outcome, now))
    ensures Inv(cls, f, Apply(cls, shouldCache, st, Settle(id, outcome, now)).0)
  {
    var c, settled := st.started[id], st.(inFlight := st.inFlight - {id});
    if outcome.Return? && shouldCache(outcome.value) {
      if KeyOf(cls, c).Key? { assert StandsFor(cls, c, c.target, KeyOf(cls, c).text); }
      WriteKeeps(cls, f, st, settled, c, Ready(outcome.value), now);
    } else {
      EraseKeeps(cls, f, st, settled, c);
    }
  }

  lemma ClearKeeps<A(!new), V(!new)>(cls: Class<A>, f: Call<A> -> Outcome<V>, shouldCache: V -> bool, st: State<A, V>,
                                     step: Step<A, V>)
    requires Inv(cls, f, st) && (step.Clear? || step.ClearAll? || step.Collect?)
    ensures Inv(cls, f, Apply(cls, shouldCache, st, step).0)
  {
    var st' := Apply(cls, shouldCache, st, step).0;
    forall t, e | t in st'.stores && e in st'.stores[t].entries ensures t in st.stores && e in st.stores[t].entries {
      match step {
        case Clear(c) => if KeyOf(cls, c).Key? { DeleteLeaves(st.stores, c.target, KeyOf(cls, c).text, t, e); }
        case ClearAll(target, name) => if name.Some? { DeleteLeaves(st.stores, target, name.value + "$", t, e); }
        case Collect(now) => CollectLeaves(cls.options, st.stores, now, t, e);
      }
    }
    FewerEntries(cls, f, st, st');
  }

  // ---- whole runs ----

  function Fresh<A, V>(): (st: State<A, V>) { State(map[], [], {}, {}) }

  /** `st` is where a run of enabled steps leads from an empty cache, `answers` what they gave. */
  ghost predicate Reaches<A(!new), V(!new)>(cls: Class<A>, f: Call<A> -> Outcome<V>, shouldCache: V -> bool,
                                            steps: seq<Step<A, V>>, st: State<A, V>, answers: seq<Answer<V>>)
  {
    |answers| == |steps| &&
    if steps == [] then st == Fresh() else
      var last := |steps| - 1;
      exists before: State<A, V> ::
        && Reaches(cls, f, shouldCache, steps[..last], before, answers[..last])
        && Enabled(cls, f, before, steps[last])
        && Apply(cls, shouldCache, before, steps[last]) == (st, answers[last])
  }

  lemma StepTransparent<A(!new), V(!new)>(cls: Class<A>, f: Call<A> -> Outcome<V>, shouldCache: V -> bool,
                                          st: State<A, V>,
                                          step: Step<A, V>)
    requires Distinguishes(cls) && Inv(cls, f, st) && Enabled(cls, f, st, step)
    ensures var (st', a) := Apply(cls, shouldCache, st, step);
            Inv(cls, f, st') && st.started <= st'.started && Answered(cls, f, st'.started, step, a)
  {
    match step {
      case Enter(c, now) => EnterIsFaithful(cls, f, st, c, now);
      case Leave(id, outcome, now) => LeaveKeeps(cls, f, shouldCache, st, id, outcome, now);
      case Suspend(id, now) => SuspendKeeps(cls, f, shouldCache, st, id, now);
      case Settle(id, outcome, now) => SettleKeeps(cls, f, shouldCache, st, id, outcome, now);
      case _ => ClearKeeps(cls, f, shouldCache, st, step);
    }
  }

  predicate AllAnswered<A(==), V(==)>(cls: Class<A>, f: Call<A> -> Outcome<V>, st: State<A, V>, steps: seq<Step<A, V>>,
                                      answers: seq<Answer<V>>)
  {
    |answers| == |steps| && forall i :: 0 <= i < |steps| ==> Answered(cls, f, st.started, steps[i], answers[i])
  }

  lemma AnsweredLater<A, V>(cls: Class<A>, f: Call<A> -> Outcome<V>, before: State<A, V>, st: State<A, V>,
                            steps: seq<Step<A, V>>, answers: seq<Answer<V>>)
    requires steps != [] && |answers| == |steps| && before.started <= st.started
    requires var last := |steps| - 1;
             && AllAnswered(cls, f, before, steps[..last], answers[..last])
             && Answered(cls, f, st.started, steps[last], answers[last])
    ensures AllAnswered(cls, f, st, steps, answers)
  {
    var last := |steps| - 1;
    forall i | 0 <= i < |steps| ensures Answered(cls, f, st.started, steps[i], answers[i]) {
      if i < last { assert Answered(cls, f, before.started, steps[..last][i], answers[..last][i]); }
    }
  }

  /** Transparency. When keys determine calls, in every run of sync and async calls, nested or not, of promise handlers,
      clears, collections, expiries, evictions and refusals to cache, with any clock: every call is given its method's
      outcome, or the promise or evaluation of the same method, instance and arguments; and no entry holds the promise
      of an evaluation whose handlers have run. */
  lemma {:induction false} CacheIsTransparent<A(!new), V(!new)>(cls: Class<A>, f: Call<A> -> Outcome<V>,
                                                                shouldCache: V -> bool, steps: seq<Step<A, V>>,
                                                                st: State<A, V>, answers: seq<Answer<V>>)
    requires Distinguishes(cls) && Reaches(cls, f, shouldCache, steps, st, answers)
    ensures Inv(cls, f, st) && AllAnswered(cls, f, st, steps, answers)
    ensures forall t, e :: t in st.stores && e in st.stores[t].entries && e.value.Promise? ==> e.value.id in st.inFlight
  {
    if steps != [] {
      var last := |steps| - 1;
      var before: State<A, V> :| Reaches(cls, f, shouldCache, steps[..last], before, answers[..last])
        && Enabled(cls, f, before, steps[last])
        && Apply(cls, shouldCache, before, steps[last]) == (st, answers[last]);
      CacheIsTransparent(cls, f, shouldCache, steps[..last], before, answers[..last]);
      StepTransparent(cls, f, shouldCache, before, steps[last]);
      AnsweredLater(cls, f, before, st, steps, answers);
    }
    PromisesAreRunning(cls, f, st);
  }

  lemma PromisesAreRunning<A(!new), V(!new)>(cls: Class<A>, f: Call<A> -> Outcome<V>, st: State<A, V>)
    requires Inv(cls, f, st)
    ensures forall t, e :: t in st.stores && e in st.stores[t].entries && e.value.Promise? ==> e.value.id in st.inFlight
  {
    forall t, e | t in st.stores && e in st.stores[t].entries && e.value.Promise? ensures e.value.id in st.inFlight {
      assert EntryOk(cls, f, st, t, e);
    }
  }

  /** A refused or rejected evaluation is out of the cache as soon as its handlers have run. */
  lemma RejectionIsNotCached<A(!new), V(!new)>(cls: Class<A>, f: Call<A> -> Outcome<V>, shouldCache: V -> bool,
                                               st: State<A, V>, id: nat, outcome: Outcome<V>, now: int)
    requires Inv(cls, f, st) && Enabled(cls, f, st, Settle(id, outcome, now))
    requires outcome.Return? ==> !shouldCache(outcome.value)
    ensures var (st', _) := Apply(cls, shouldCache, st, Settle(id, outcome, now)); var c := st.started[id];
            && (forall t, e :: t in st'.stores && e in st'.stores[t].entries ==> e.value != Promise(id))
            && (c.target in st'.stores && KeyOf(cls, c).Key? ==>
                  MapGet(st'.stores, c.target, KeyOf(cls, c).text) == None)
  {
    SettleKeeps(cls, f, shouldCache, st, id, outcome, now);
    var c, st' := st.started[id], Apply(cls, shouldCache, st, Settle(id, outcome, now)).0;
    if c.target in st'.stores && KeyOf(cls, c).Key? {
      var found := Lookup(st'.stores[c.target].entries, KeyOf(cls, c).text);
      if found.Some? { DeleteLeaves(st.stores, c.target, KeyOf(cls, c).text, c.target, found.value); }
    }
    forall t, e | t in st'.stores && e in st'.stores[t].entries ensures e.value != Promise(id) {
      assert EntryOk(cls, f, st', t, e);
    }
  }

  // ---- what is cached, and what a clear clears ----

  ghost predicate DistinctStores<V>(stores: Stores<V>) {
    forall t :: t in stores ==> DistinctKeys(stores[t].entries)
  }

  lemma SetKeepsDistinct<V>(o: Options, stores: Stores<V>, target: int, key: string, value: V, now: int)
    requires DistinctStores(stores)
    ensures DistinctStores(MapSet(o, stores, target, key, value, now))
  {
    PutDistinct(o, if target in stores then stores[target].entries else [], key, value, now);
  }

  lemma DeleteKeepsDistinct<V>(stores: Stores<V>, target: int, key: string)
    requires DistinctStores(stores)
    ensures DistinctStores(MapDelete(stores, target, key))
  {
    if target in stores { KeepDistinct(stores[target].entries, Deleting(key)); }
  }

  lemma HasKeepsDistinct<V>(o: Options, stores: Stores<V>, target: int, key: string, now: int)
    requires DistinctStores(stores)
    ensures DistinctStores(MapHas(o, stores, target, key, now).0)
  {
    if target in stores { KeepDistinct(stores[target].entries, OtherKey(key)); }
  }

  lemma CollectKeepsDistinct<V>(o: Options, stores: Stores<V>, now: int)
    requires DistinctStores(stores)
    ensures DistinctStores(MapCollect(o, stores, now))
  {
    forall t | t in stores ensures DistinctKeys(MapCollect(o, stores, now)[t].entries) {
      KeepDistinct(stores[t].entries, Alive(now, o.ttl));
    }
  }

  lemma WriteKeepsDistinct<A, V>(cls: Class<A>, st: State<A, V>, c: Call<A>, value: Cached<V>, now: int)
    requires DistinctStores(st.stores)
    ensures DistinctStores(Write(cls, st, c, value, now).stores) && DistinctStores(Erase(cls, st, c).stores)
  {
    if KeyOf(cls, c).Key? {
      SetKeepsDistinct(cls.options, st.stores, c.target, KeyOf(cls, c).text, value, now);
      DeleteKeepsDistinct(st.stores, c.target, KeyOf(cls, c).text);
    }
  }

  lemma StepKeepsDistinct<A, V>(cls: Class<A>, shouldCache: V -> bool, st: State<A, V>, step: Step<A, V>)
    requires (step.Leave? || step.Suspend? || step.Settle?) ==> step.id < |st.started|
    requires DistinctStores(st.stores)
    ensures DistinctStores(Apply(cls, shouldCache, st, step).0.stores)
  {
    match step {
      case Enter(c, now) =>
        if KeyOf(cls, c).Key? { HasKeepsDistinct(cls.options, st.stores, c.target, KeyOf(cls, c).text, now); }
      case Leave(id, outcome, now) =>
        var left := st.(open := st.open - {id});
        if outcome.Return? { WriteKeepsDistinct(cls, left, st.started[id], Ready(outcome.value), now); }
      case Suspend(id, now) =>
        var left := st.(open := st.open - {id}, inFlight := st.inFlight + {id});
        WriteKeepsDistinct(cls, left, st.started[id], Promise(id), now);
      case Settle(id, outcome, now) =>
        var settled := st.(inFlight := st.inFlight - {id});
        WriteKeepsDistinct(cls, settled, st.started[id], if outcome.Return? then Ready(outcome.value) else Promise(id),
                           now);
      case Clear(c) => WriteKeepsDistinct(cls, st, c, Promise(0), 0);
      case ClearAll(target, name) =>
        if name.Some? { DeleteKeepsDistinct(st.stores, target, name.value + "$"); }
      case Collect(now) => CollectKeepsDistinct(cls.options, st.stores, now);
    }
  }

  lemma {:induction false} RunsKeepDistinct<A(!new), V(!new)>(cls: Class<A>, f: Call<A> -> Outcome<V>,
                                                              shouldCache: V -> bool, steps: seq<Step<A, V>>,
                                                              st: State<A, V>, answers: seq<Answer<V>>)
    requires Reaches(cls, f, shouldCache, steps, st, answers)
    ensures DistinctStores(st.stores)
  {
    if steps != [] {
      var last := |steps| - 1;
      var before: State<A, V> :| Reaches(cls, f, shouldCache, steps[..last], before, answers[..last])
        && Enabled(cls, f, before, steps[last])
        && Apply(cls, shouldCache, before, steps[last]) == (st, answers[last]);
      RunsKeepDistinct(cls, f, shouldCache, steps[..last], before, answers[..last]);
      StepKeepsDistinct(cls, shouldCache, before, steps[last]);
    }
  }

  /** What a call is given by an entry that was written at one time and is asked for at another; an expired one is
      evaluated anew. */
  function Given<A, V>(cls: Class<A>, st: State<A, V>, value: Cached<V>, at: int, now: int): (a: Answer<V>) {
    if !Lives(cls.options, at, now) then Evaluates(|st.started|)
    else match value case Ready(v) => Done(Return(v)) case Promise(id) => Awaits(id)
  }

  lemma WrittenIsGiven<A, V>(cls: Class<A>, st: State<A, V>, c: Call<A>, value: Cached<V>, at: int, now: int)
    requires KeyOf(cls, c).Key? && DistinctStores(st.stores)
    ensures OnEnter(cls, Write(cls, st, c, value, at), c, now).1 == Given(cls, st, value, at, now)
  {
    var s := if c.target in st.stores then st.stores[c.target] else Store([], NO_STATS);
    WrittenLives(cls.options, s, KeyOf(cls, c).text, value, at, now);
  }

  /** The point of the cache: the call that follows is not evaluated but given what the first one left, for as long as
      that lives. A sync method leaves its value, an async one first its promise and then its value. */
  lemma NextCallIsAHit<A, V>(cls: Class<A>, shouldCache: V -> bool, st: State<A, V>, id: nat, v: V, at: int, now: int)
    requires id < |st.started| && KeyOf(cls, st.started[id]).Key? && shouldCache(v) && DistinctStores(st.stores)
    ensures var left := Apply(cls, shouldCache, st, Leave(id, Return(v), at)).0;
            OnEnter(cls, left, st.started[id], now).1 == Given(cls, st, Ready(v), at, now)
    ensures var left := Apply(cls, shouldCache, st, Suspend(id, at)).0;
            OnEnter(cls, left, st.started[id], now).1 == Given(cls, st, Promise(id), at, now)
    ensures var left := Apply(cls, shouldCache, st, Settle(id, Return(v), at)).0;
            OnEnter(cls, left, st.started[id], now).1 == Given(cls, st, Ready(v), at, now)
  {
    var c := st.started[id];
    WrittenIsGiven(cls, st.(open := st.open - {id}), c, Ready(v), at, now);
    WrittenIsGiven(cls, st.(open := st.open - {id}, inFlight := st.inFlight + {id}), c, Promise(id), at, now);
    WrittenIsGiven(cls, st.(inFlight := st.inFlight - {id}), c, Ready(v), at, now);
  }

  /** What a deletion by this key leaves on its instance, and that it leaves the others alone. */
  lemma DeleteMeans<V>(stores: Stores<V>, target: int, key: string)
    ensures var left := MapDelete(stores, target, key);
            && left.Keys == stores.Keys
            && (forall t :: t in stores && t != target ==> left[t] == stores[t])
            && (forall e :: target in stores ==>
                  (e in left[target].entries <==> e in stores[target].entries && !Hits(key, e.key)))
  {
    if target in stores { KeepDrops(stores[target].entries, Deleting(key)); }
  }

  lemma MissIsEvaluated<A, V>(cls: Class<A>, st: State<A, V>, c: Call<A>, now: int)
    requires !KeyOf(cls, c).Raised?
    requires c.target in st.stores && KeyOf(cls, c).Key? ==>
               forall e :: e in st.stores[c.target].entries ==> e.key != KeyOf(cls, c).text
    ensures OnEnter(cls, st, c, now).1 == Evaluates(|st.started|)
  {
  }

  /** After `clear` the call is evaluated anew. */
  lemma ClearedIsEvaluated<A, V>(cls: Class<A>, shouldCache: V -> bool, st: State<A, V>, c: Call<A>, now: int)
    requires !KeyOf(cls, c).Raised?
    ensures var left := Apply(cls, shouldCache, st, Clear(c)).0;
            && left.started == st.started && OnEnter(cls, left, c, now).1 == Evaluates(|st.started|)
            && forall t :: t in st.stores && t != c.target ==> t in left.stores && left.stores[t] == st.stores[t]
  {
    if KeyOf(cls, c).Key? {
      var key := KeyOf(cls, c).text;
      DeleteMeans(st.stores, c.target, key);
      var left := st.(stores := MapDelete(st.stores, c.target, key));
      forall e | c.target in st.stores && e in left.stores[c.target].entries ensures e.key != key {
        DeleteLeaves(st.stores, c.target, key, c.target, e);
      }
      MissIsEvaluated(cls, left, c, now);
    } else {
      MissIsEvaluated(cls, st, c, now);
    }
  }

  lemma LeftIsNotHit<V>(stores: Stores<V>, target: int, key: string, e: Entry<V>)
    requires target in stores && e in MapDelete(stores, target, key)[target].entries
    ensures !Hits(key, e.key)
  {
    KeepDrops(stores[target].entries, Deleting(key));
  }

  lemma NameIsHit(name: string, k: string)
    ensures Hits(name + "$", k) <==> name <= k
  {
    var key := name + "$";
    assert key[|key| - 1] == '$' && key[..|key| - 1] == name;
  }

  lemma NameBegins<A>(cls: Class<A>, c: Call<A>)
    requires KeyOf(cls, c).Key?
    ensures cls.nameOf(c.method') <= KeyOf(cls, c).text
  {
  }

  /** After `clearAll` every call on the instance is, or every call of the methods of one name; what goes besides are
      the calls of methods whose names begin with that name. Other instances keep all. */
  lemma ClearAllMeans<A, V>(cls: Class<A>, shouldCache: V -> bool, st: State<A, V>, target: int, name: Option<string>)
    ensures var left := Apply(cls, shouldCache, st, ClearAll(target, name)).0;
            && left.started == st.started
            && (forall t :: t in st.stores && t != target ==> t in left.stores && left.stores[t] == st.stores[t])
            && (forall e :: name.Some? && target in st.stores ==>
                  (target in left.stores
                   && (e in left.stores[target].entries <==> e in st.stores[target].entries && !(name.value <= e.key))))
    ensures forall c: Call<A>, now :: ClearsCall(cls, target, name, c) ==>
              OnEnter(cls, Apply(cls, shouldCache, st, ClearAll(target, name)).0, c, now).1 == Evaluates(|st.started|)
  {
    var left := Apply(cls, shouldCache, st, ClearAll(target, name)).0;
    if name.Some? {
      DeleteMeans(st.stores, target, name.value + "$");
      forall k ensures Hits(name.value + "$", k) <==> name.value <= k { NameIsHit(name.value, k); }
    }
    forall c: Call<A>, now | ClearsCall(cls, target, name, c)
      ensures OnEnter(cls, left, c, now).1 == Evaluates(|st.started|)
    {
      if KeyOf(cls, c).Key? && name.Some? && target in st.stores {
        NameBegins(cls, c);
        forall e | e in left.stores[target].entries ensures e.key != KeyOf(cls, c).text {
          LeftIsNotHit(st.stores, target, name.value + "$", e);
          NameIsHit(name.value, e.key);
        }
      }
      MissIsEvaluated(cls, left, c, now);
    }
  }

  predicate ClearsCall<A>(cls: Class<A>, target: int, name: Option<string>, c: Call<A>) {
    c.target == target && !KeyOf(cls, c).Raised? && (name.Some? ==> cls.nameOf(c.method') == name.value)
  }

  // ---- exactly which classes are transparent ----

  /** Whatever the methods do, every answer of every run is the undecorated one. */
  ghost predicate Transparent<A(!new)>(cls: Class<A>) {
    forall f: Call<A> -> Outcome<bool>, shouldCache: bool -> bool, steps, st, answers ::
      Reaches(cls, f, shouldCache, steps, st, answers) ==> AllAnswered(cls, f, st, steps, answers)
  }

  lemma OneMoreStep<A(!new), V(!new)>(cls: Class<A>, f: Call<A> -> Outcome<V>, shouldCache: V -> bool,
                                      steps: seq<Step<A, V>>, st: State<A, V>, answers: seq<Answer<V>>,
                                      step: Step<A, V>)
    requires Reaches(cls, f, shouldCache, steps, st, answers) && Enabled(cls, f, st, step)
    ensures var (next, a) := Apply(cls, shouldCache, st, step);
            Reaches(cls, f, shouldCache, steps + [step], next, answers + [a])
  {
    var (next, a) := Apply(cls, shouldCache, st, step);
    var longer, more := steps + [step], answers + [a];
    assert longer[..|longer| - 1] == steps && more[..|longer| - 1] == answers;
  }

  lemma WrittenIsHit<V>(o: Options, target: int, key: string, value: V)
    ensures var (stores, found) := MapHas(o, MapSet(o, map[], target, key, value, 0), target, key, 0);
            found && MapGet(stores, target, key) == Some(value)
  {
    WriteMeans(o, [], key, value, 0, key);
  }

  /** A call on an empty cache up to its return, with a value that may be cached: what it leaves behind. */
  lemma FirstCall<A(!new), V(!new)>(cls: Class<A>, f: Call<A> -> Outcome<V>, shouldCache: V -> bool, c: Call<A>, v: V)
    returns (steps: seq<Step<A, V>>, st: State<A, V>, answers: seq<Answer<V>>)
    requires c.method' in cls.methods && KeyOf(cls, c).Key? && f(c) == Return(v) && shouldCache(v)
    ensures Reaches(cls, f, shouldCache, steps, st, answers)
    ensures var async' := c.method' in cls.isAsync;
            && st.started == [c] && st.inFlight == (if async' then {0} else {})
            && st.stores == MapSet(cls.options, map[], c.target, KeyOf(cls, c).text,
                                   if async' then Promise(0) else Ready(v), 0)
  {
    var none: State<A, V> := Fresh();
    var enter: Step<A, V> := Enter(c, 0);
    assert Reaches(cls, f, shouldCache, [], none, []);
    OneMoreStep(cls, f, shouldCache, [], none, [], enter);
    var (one, a) := Apply(cls, shouldCache, none, enter);
    assert one == none.(started := [c], open := {0});
    var return' := if c.method' in cls.isAsync then Suspend(0, 0) else Leave(0, f(c), 0);
    OneMoreStep(cls, f, shouldCache, [] + [enter], one, [] + [a], return');
    var (two, b) := Apply(cls, shouldCache, one, return');
    steps, st, answers := [] + [enter] + [return'], two, [] + [a] + [b];
  }

  lemma WrongAnswer<A(!new)>(cls: Class<A>, f: Call<A> -> Outcome<bool>, shouldCache: bool -> bool,
                             steps: seq<Step<A, bool>>, st: State<A, bool>, answers: seq<Answer<bool>>,
                             step: Step<A, bool>)
    requires Reaches(cls, f, shouldCache, steps, st, answers) && Enabled(cls, f, st, step)
    requires var (next, a) := Apply(cls, shouldCache, st, step); !Answered(cls, f, next.started, step, a)
    ensures !Transparent(cls)
  {
    var (next, a) := Apply(cls, shouldCache, st, step);
    OneMoreStep(cls, f, shouldCache, steps, st, answers, step);
    LastIsWrong(cls, f, next, steps, answers, step, a);
    var longer, more := steps + [step], answers + [a];
    assert Reaches(cls, f, shouldCache, longer, next, more);
  }

  lemma LastIsWrong<A, V>(cls: Class<A>, f: Call<A> -> Outcome<V>, st: State<A, V>, steps: seq<Step<A, V>>,
                          answers: seq<Answer<V>>, step: Step<A, V>, a: Answer<V>)
    requires |answers| == |steps| && !Answered(cls, f, st.started, step, a)
    ensures !AllAnswered(cls, f, st, steps + [step], answers + [a])
  {
    var longer, more := steps + [step], answers + [a];
    assert longer[|steps|] == step && more[|steps|] == a;
  }

  /** Two calls with one key share an entry: the second is given the first one's value, or its promise. */
  lemma SharedKeyShares<A(!new)>(cls: Class<A>, c: Call<A>, d: Call<A>)
    requires c.method' in cls.methods && d.method' in cls.methods && c != d && c.target == d.target
    requires KeyOf(cls, c).Key? && KeyOf(cls, c) == KeyOf(cls, d)
    ensures !Transparent(cls)
  {
    SharedKeyAnswers(cls, (x: Call<A>) => Return(x == c), (v: bool) => true, c, d);
  }

  lemma SharedKeyAnswers<A(!new)>(cls: Class<A>, f: Call<A> -> Outcome<bool>, shouldCache: bool -> bool, c: Call<A>,
                                  d: Call<A>)
    requires c.method' in cls.methods && d.method' in cls.methods && c != d && c.target == d.target
    requires KeyOf(cls, c).Key? && KeyOf(cls, c) == KeyOf(cls, d)
    requires f(c) == Return(true) && f(d) == Return(false) && shouldCache(true)
    ensures !Transparent(cls)
  {
    var steps, st, answers := FirstCall(cls, f, shouldCache, c, true);
    var kept: Cached<bool> := if c.method' in cls.isAsync then Promise(0) else Ready(true);
    WrittenIsHit(cls.options, c.target, KeyOf(cls, c).text, kept);
    WrongAnswer(cls, f, shouldCache, steps, st, answers, Enter(d, 0));
  }

  lemma RaisedKeyShows<A(!new)>(cls: Class<A>, c: Call<A>)
    requires c.method' in cls.methods && KeyOf(cls, c).Raised?
    ensures !Transparent(cls)
  {
    var f, shouldCache := (x: Call<A>) => Return(true), (v: bool) => true;
    assert Reaches(cls, f, shouldCache, [], Fresh(), []);
    WrongAnswer(cls, f, shouldCache, [], Fresh(), [], Enter(c, 0));
  }

  lemma TransparentExactlyWhenDistinguished<A(!new)>(cls: Class<A>)
    ensures Transparent(cls) <==> Distinguishes(cls)
  {
    if Distinguishes(cls) {
      forall f: Call<A> -> Outcome<bool>, shouldCache: bool -> bool, steps, st, answers
        | Reaches(cls, f, shouldCache, steps, st, answers)
        ensures AllAnswered(cls, f, st, steps, answers)
      {
        CacheIsTransparent(cls, f, shouldCache, steps, st, answers);
      }
    } else if c: Call<A>, d: Call<A> :| Clash(cls, c, d) {
      SharedKeyShares(cls, c, d);
    } else {
      var c: Call<A> :| c.method' in cls.methods && KeyOf(cls, c).Raised?;
      RaisedKeyShows(cls, c);
    }
  }

  // ---- in terms of the method names and of single arguments ----

  /** The text of an argument determines the argument. */
  ghost predicate ViewInjective<A(!new)>(view: A -> Keys.Arg) {
    forall x, y :: view(x) == view(y) && Keys.Keyed(view(x)) ==> x == y
  }

  ghost predicate NoneRaises<A(!new)>(view: A -> Keys.Arg) {
    forall x :: !view(x).Raises?
  }

  /** No two methods have a key in common. */
  ghost predicate NamesApart<A(!new)>(cls: Class<A>) {
    forall m, n, a, b :: m in cls.methods && n in cls.methods && m != n ==> !SharedKey(cls, m, a, n, b)
  }

  predicate SharedKey<A>(cls: Class<A>, m: int, a: seq<A>, n: int, b: seq<A>) {
    var key := Keys.MethodKey(cls.nameOf(m), Views(cls.view, a));
    key.Key? && key == Keys.MethodKey(cls.nameOf(n), Views(cls.view, b))
  }

  lemma SameKeySameArgs<A(!new)>(cls: Class<A>, m: int, a: seq<A>, b: seq<A>)
    requires ViewInjective(cls.view) && SharedKey(cls, m, a, m, b)
    ensures a == b
  {
    var x, y := Views(cls.view, a), Views(cls.view, b);
    Keys.MethodKeysAreInjective(cls.nameOf(m), x, cls.nameOf(m), y);
    assert |a| == |x| == |y| == |b|;
    forall i | 0 <= i < |a| ensures a[i] == b[i] {
      assert x[i] == y[i] && Keys.Keyed(x[i]);
    }
  }

  lemma SeparateIsDistinguished<A(!new)>(cls: Class<A>)
    requires ViewInjective(cls.view) && NoneRaises(cls.view) && NamesApart(cls)
    ensures Distinguishes(cls)
  {
    forall c: Call<A>, d: Call<A> ensures !Clash(cls, c, d) {
      if Clash(cls, c, d) {
        assert SharedKey(cls, c.method', c.args, d.method', d.args);
        SameKeySameArgs(cls, c.method', c.args, d.args);
        assert false;
      }
    }
  }

  /** A class of methods is decorated transparently, whatever the methods do, exactly when an argument's text determines
      the argument, making a text never throws, and no two methods can have a key in common. */
  lemma TransparentExactlyWhen<A(!new)>(cls: Class<A>)
    ensures Transparent(cls)
       <==> cls.methods == {} || (ViewInjective(cls.view) && NoneRaises(cls.view) && NamesApart(cls))
  {
    TransparentExactlyWhenDistinguished(cls);
    if ViewInjective(cls.view) && NoneRaises(cls.view) && NamesApart(cls) {
      SeparateIsDistinguished(cls);
    }
    if Distinguishes(cls) && cls.methods != {} {
      DistinguishedIsSeparate(cls);
    }
  }

  lemma DistinguishedIsSeparate<A(!new)>(cls: Class<A>)
    requires Distinguishes(cls) && cls.methods != {}
    ensures ViewInjective(cls.view) && NoneRaises(cls.view) && NamesApart(cls)
  {
    var m := Element(cls.methods);
    forall x, y | cls.view(x) == cls.view(y) && Keys.Keyed(cls.view(x)) ensures x == y {
      var c, d := Call(0, m, [x]), Call(0, m, [y]);
      assert Views(cls.view, [x]) == [cls.view(x)] == Views(cls.view, [y]);
      assert c.args[0] == x && d.args[0] == y;
      assert !Clash(cls, c, d);
    }
    forall x ensures !cls.view(x).Raises? {
      var c := Call(0, m, [x]);
      assert Views(cls.view, [x]) == [cls.view(x)];
      assert !KeyOf(cls, c).Raised?;
    }
    forall m, n, a, b | m in cls.methods && n in cls.methods && m != n ensures !SharedKey(cls, m, a, n, b) {
      assert !Clash(cls, Call(0, m, a), Call(0, n, b));
    }
  }

  /** The methods have different names, and none of them continues another one with a `$` and an unfinished text
      (`CacheKeys.Confusable`): a check on the names alone. */
  predicate Unambiguous<A>(cls: Class<A>) {
    forall m, n :: m in cls.methods && n in cls.methods && m != n ==>
      cls.nameOf(m) != cls.nameOf(n) && !Keys.Confusable(cls.nameOf(m), cls.nameOf(n))
  }

  /** That is always enough for the names. */
  lemma UnambiguousNamesAreApart<A(!new)>(cls: Class<A>)
    requires Unambiguous(cls)
    ensures NamesApart(cls)
  {
    forall m, n, a, b | m in cls.methods && n in cls.methods && m != n ensures !SharedKey(cls, m, a, n, b) {
      if SharedKey(cls, m, a, n, b) {
        Keys.MethodKeysAreInjective(cls.nameOf(m), Views(cls.view, a), cls.nameOf(n), Views(cls.view, b));
      }
    }
  }

  lemma ViewsCons<A>(view: A -> Keys.Arg, x: A, rest: seq<A>)
    ensures Views(view, [x] + rest) == [view(x)] + Views(view, rest)
  {
    var a, b := Views(view, [x] + rest), [view(x)] + Views(view, rest);
    forall i | 0 <= i < |a| ensures a[i] == b[i] {
      assert a[i] == view(([x] + rest)[i]);
    }
  }

  lemma {:induction false} Preimage<A(!new)>(view: A -> Keys.Arg, views: seq<Keys.Arg>) returns (args: seq<A>)
    requires (forall k :: Keys.Keyed(k) ==> exists x :: view(x) == k) && Keys.Serializable(views)
    ensures Views(view, args) == views
  {
    if views == [] {
      args := [];
    } else {
      var rest := Preimage(view, views[1..]);
      assert Keys.Keyed(views[0]);
      var x :| view(x) == views[0];
      args := [x] + rest;
      ViewsCons(view, x, rest);
      assert views == [views[0]] + views[1..];
    }
  }

  /** And of methods that take arguments of every kind and text it asks no more than needed. */
  lemma NamesApartExactlyWhenUnambiguous<A(!new)>(cls: Class<A>)
    requires forall k :: Keys.Keyed(k) ==> exists x :: cls.view(x) == k
    ensures NamesApart(cls) <==> Unambiguous(cls)
  {
    if Unambiguous(cls) { UnambiguousNamesAreApart(cls); }
    if NamesApart(cls) {
      forall m, n | m in cls.methods && n in cls.methods && m != n
        ensures cls.nameOf(m) != cls.nameOf(n) && !Keys.Confusable(cls.nameOf(m), cls.nameOf(n))
      {
        assert !SharedKey(cls, m, [], n, []);
        if Keys.Confusable(cls.nameOf(m), cls.nameOf(n)) {
          ConfusableMethodsShare(cls, m, n);
        }
      }
    }
  }

  lemma ConfusableMethodsShare<A(!new)>(cls: Class<A>, m: int, n: int)
    requires forall k :: Keys.Keyed(k) ==> exists x :: cls.view(x) == k
    requires Keys.Confusable(cls.nameOf(m), cls.nameOf(n))
    ensures exists a, b :: SharedKey(cls, m, a, n, b)
  {
    Keys.ConfusableCollide(cls.nameOf(m), cls.nameOf(n));
    var x, y :| Keys.Serializable(x) && Keys.Serializable(y)
                && cls.nameOf(m) + ("$" + Keys.Encode(x)) == cls.nameOf(n) + ("$" + Keys.Encode(y));
    var a := Preimage(cls.view, x);
    var b := Preimage(cls.view, y);
    assert SharedKey(cls, m, a, n, b);
  }

  /** An override that calls what it overrides, both decorated: the names are the same, so the class is not
      transparent, whatever the arguments are. */
  lemma SameNameShares<A(!new)>(cls: Class<A>, m: int, n: int)
    requires m in cls.methods && n in cls.methods && m != n && cls.nameOf(m) == cls.nameOf(n)
    ensures !Transparent(cls)
  {
    SharedKeyShares(cls, Call(0, m, []), Call(0, n, []));
  }

  /** Two arguments with one text, such as 0 and -0 (both `D1:0`), `[undefined]` and `[null]`, or symbols with one
      description, make any method's answers wrong. */
  lemma LookalikesShare<A(!new)>(cls: Class<A>, x: A, y: A)
    requires cls.methods != {} && x != y && cls.view(x) == cls.view(y) && Keys.Keyed(cls.view(x))
    ensures !Transparent(cls)
  {
    TransparentExactlyWhen(cls);
  }

  datatype Zero = Positive | Negative

  /** For instance `f(0)` and `f(-0)` of a class with one method, which may well be `1 / x`. */
  lemma ZerosShareAKey(options: Options, name: string)
    ensures !Transparent(Class(options, {0}, {}, _ => name, (z: Zero) => Keys.Num("0")))
  {
    LookalikesShare(Class(options, {0}, {}, _ => name, (z: Zero) => Keys.Num("0")), Positive, Negative);
  }

  // ---- when an async call gives a bare value ----

  /** In every run async methods give promises, as they would undecorated. */
  ghost predicate GivesPromises<A(!new)>(cls: Class<A>) {
    forall f: Call<A> -> Outcome<bool>, shouldCache: bool -> bool, steps, st, answers ::
      Reaches(cls, f, shouldCache, steps, st, answers) ==> PromisesOnly(cls, steps, answers)
  }

  predicate PromisesOnly<A>(cls: Class<A>, steps: seq<Step<A, bool>>, answers: seq<Answer<bool>>) {
    |answers| == |steps| && forall i :: 0 <= i < |steps| && IsAsyncCall(cls, steps[i]) ==> !answers[i].Done?
  }

  predicate IsAsyncCall<A, V>(cls: Class<A>, step: Step<A, V>) {
    step.Enter? && step.call.method' in cls.isAsync
  }

  lemma {:induction false} EnteredAreMethods<A(!new)>(cls: Class<A>, f: Call<A> -> Outcome<bool>,
                                                      shouldCache: bool -> bool,
                                                      steps: seq<Step<A, bool>>, st: State<A, bool>,
                                                      answers: seq<Answer<bool>>)
    requires Reaches(cls, f, shouldCache, steps, st, answers)
    ensures EntersMethods(cls, steps)
  {
    if steps != [] {
      var last := |steps| - 1;
      var before: State<A, bool> :| Reaches(cls, f, shouldCache, steps[..last], before, answers[..last])
        && Enabled(cls, f, before, steps[last]) && Apply(cls, shouldCache, before, steps[last]) == (st, answers[last]);
      EnteredAreMethods(cls, f, shouldCache, steps[..last], before, answers[..last]);
      EntersSnoc(cls, steps);
    }
  }

  predicate EntersMethods<A, V>(cls: Class<A>, steps: seq<Step<A, V>>) {
    forall i :: 0 <= i < |steps| && steps[i].Enter? ==> steps[i].call.method' in cls.methods
  }

  lemma EntersSnoc<A, V>(cls: Class<A>, steps: seq<Step<A, V>>)
    requires steps != [] && EntersMethods(cls, steps[..|steps| - 1])
    requires var s := steps[|steps| - 1]; s.Enter? ==> s.call.method' in cls.methods
    ensures EntersMethods(cls, steps)
  {
    forall i | 0 <= i < |steps| && steps[i].Enter? ensures steps[i].call.method' in cls.methods {
      if i < |steps| - 1 { assert steps[..|steps| - 1][i] == steps[i]; }
    }
  }

  /** Once an async call's value has replaced its promise, the next such call is given the bare value: to a caller that
      awaits it is the same, to one that calls `then` on it it is not. No class with an async method is spared. */
  lemma PromisesExactlyWhenSync<A(!new)>(cls: Class<A>)
    ensures GivesPromises(cls) <==> cls.methods * cls.isAsync == {}
  {
    if cls.methods * cls.isAsync != {} {
      var m := Element(cls.methods * cls.isAsync);
      BareValue(cls, (c: Call<A>) => Return(true), (v: bool) => true, Call(0, m, []));
    } else {
      forall f: Call<A> -> Outcome<bool>, shouldCache: bool -> bool, steps: seq<Step<A, bool>>, st, answers
        | Reaches(cls, f, shouldCache, steps, st, answers)
        ensures PromisesOnly(cls, steps, answers)
      {
        EnteredAreMethods(cls, f, shouldCache, steps, st, answers);
        forall i | 0 <= i < |steps| && steps[i].Enter? ensures !IsAsyncCall(cls, steps[i]) {
          NotInBoth(cls.methods, cls.isAsync, steps[i].call.method');
        }
      }
    }
  }

  lemma BareValue<A(!new)>(cls: Class<A>, f: Call<A> -> Outcome<bool>, shouldCache: bool -> bool, c: Call<A>)
    requires c.method' in cls.methods * cls.isAsync && KeyOf(cls, c).Key? && f(c) == Return(true) && shouldCache(true)
    ensures !GivesPromises(cls)
  {
    var steps, st, answers := SettledCall(cls, f, shouldCache, c);
    var enter: Step<A, bool> := Enter(c, 0);
    var (next, b) := Apply(cls, shouldCache, st, enter);
    assert b == Done(Return(true)) by {
      RewrittenIsHit(cls.options, c.target, KeyOf(cls, c).text, Promise(0), Ready(true));
    }
    OneMoreStep(cls, f, shouldCache, steps, st, answers, enter);
    LastIsBare(cls, steps, answers, enter, b);
  }

  /** An async call on an empty cache up to its handlers: its value has replaced its promise. */
  lemma SettledCall<A(!new)>(cls: Class<A>, f: Call<A> -> Outcome<bool>, shouldCache: bool -> bool, c: Call<A>)
    returns (steps: seq<Step<A, bool>>, st: State<A, bool>, answers: seq<Answer<bool>>)
    requires c.method' in cls.methods * cls.isAsync && KeyOf(cls, c).Key? && f(c) == Return(true) && shouldCache(true)
    ensures Reaches(cls, f, shouldCache, steps, st, answers)
    ensures var key := KeyOf(cls, c).text;
            var pending := MapSet(cls.options, map[], c.target, key, Promise(0), 0);
            st.stores == MapSet(cls.options, pending, c.target, key, Ready(true), 0)
  {
    steps, st, answers := FirstCall(cls, f, shouldCache, c, true);
    var settle: Step<A, bool> := Settle(0, Return(true), 0);
    OneMoreStep(cls, f, shouldCache, steps, st, answers, settle);
    var (settled, a) := Apply(cls, shouldCache, st, settle);
    steps, st, answers := steps + [settle], settled, answers + [a];
  }

  lemma LastIsBare<A>(cls: Class<A>, steps: seq<Step<A, bool>>, answers: seq<Answer<bool>>, step: Step<A, bool>,
                      a: Answer<bool>)
    requires |answers| == |steps| && IsAsyncCall(cls, step) && a.Done?
    ensures !PromisesOnly(cls, steps + [step], answers + [a])
  {
    var longer, more := steps + [step], answers + [a];
    assert longer[|steps|] == step && more[|steps|] == a;
  }

  lemma RewrittenIsHit<V>(o: Options, target: int, key: string, old': V, value: V)
    ensures var stores := MapSet(o, MapSet(o, map[], target, key, old', 0), target, key, value, 0);
            var (after, found) := MapHas(o, stores, target, key, 0);
            found && MapGet(after, target, key) == Some(value)
  {
    PutDistinct(o, [], key, old', 0);
    WriteMeans(o, Put(o, [], key, old', 0), key, value, 0, key);
  }
}
