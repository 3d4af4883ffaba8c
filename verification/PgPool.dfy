/** packages/postgres/src/pgpool.ts: connection pools shared by configuration and counted by holders. */
module PgPool {
  import opened Common
  import opened StableStringify

  /** `undefined` and `null` configurations read as the empty object. */
  function Config(config: Option<Value>): (r: Value) {
    if config.None? || config.value.Null? || config.value.Undefined? then Obj([]) else config.value
  }

  function PoolKey(config: Option<Value>): (r: Text) { Stringify(Config(config)) }

  datatype PoolEntry = PoolEntry(pool: nat, refCount: int)

  /** Pools are numbered in the order they were made; `ended` holds those that `end()` was called on. */
  datatype Pools = Pools(registry: map<Text, PoolEntry>, made: nat, ended: set<nat>)

  function Acquire(s: Pools, key: Text): (r: (Pools, nat)) {
    if key in s.registry then
      var e := s.registry[key];
      (s.(registry := s.registry[key := e.(refCount := e.refCount + 1)]), e.pool)
    else
      (Pools(s.registry[key := PoolEntry(s.made, 1)], s.made + 1, s.ended), s.made)
  }

  function Release(s: Pools, key: Text): (r: Pools) {
    if key !in s.registry then s
    else
      var e := s.registry[key];
      if e.refCount - 1 > 0 then s.(registry := s.registry[key := e.(refCount := e.refCount - 1)])
      else s.(registry := s.registry - {key}, ended := s.ended + {e.pool})
  }

  /** The module-level registry. */
  class Registry {
    var registry: map<Text, PoolEntry>
    var made: nat
    var ended: set<nat>

    ghost function State(): (r: Pools)
      reads this
    {
      Pools(registry, made, ended)
    }

    constructor ()
      ensures State() == Pools(map[], 0, {})
    {
      registry, made, ended := map[], 0, {};
    }

    method AcquirePool(config: Option<Value>) returns (pool: nat)
      modifies this
      ensures (State(), pool) == Acquire(old(State()), PoolKey(config))
      ensures PoolKey(config) in registry && registry[PoolKey(config)].pool == pool
    {
      var key := PoolKey(config);
      if key in registry {
        var entry := registry[key];
        registry := registry[key := entry.(refCount := entry.refCount + 1)];
        return entry.pool;
      }
      pool := made;
      made := made + 1;
      registry := registry[key := PoolEntry(pool, 1)];
    }

    method ReleasePool(config: Option<Value>)
      modifies this
      ensures State() == Release(old(State()), PoolKey(config))
    {
      var key := PoolKey(config);
      if key !in registry {
        return;
      }
      var entry := registry[key];
      registry := registry[key := entry.(refCount := entry.refCount - 1)];
      if registry[key].refCount > 0 {
        return;
      }
      registry := registry - {key};
      ended := ended + {entry.pool};
    }
  }

  // ---- runs in which every release matches an acquire ----

  /** What one holder acquired and has not released, with the key it was registered under. */
  datatype Held = Held(config: Option<Value>, key: Text, pool: nat)

  /** Holders are numbered in the order in which they acquired. */
  datatype Run = Run(pools: Pools, held: map<nat, Held>, acquired: nat)

  datatype Step =
    | DoAcquire(config: Option<Value>)
    | DoRelease(holder: nat, config: Option<Value>)

  /** No configuration is given. */
  predicate NotGiven(config: Option<Value>) {
    config == None || config == Some(Null) || config == Some(Undefined)
  }

  predicate WellFormed(config: Option<Value>) {
    NotGiven(config) || Valid(config.value)
  }

  /** What a configuration says, whatever the order of its keys: none says what the empty object says. */
  ghost function Settings(config: Option<Value>): (m: Meaning) {
    if NotGiven(config) then MObj(map[]) else Means(config.value)
  }

  ghost predicate Equivalent(a: Option<Value>, b: Option<Value>) {
    Settings(a) == Settings(b)
  }

  /** Two configurations have one key exactly when they say the same. */
  lemma KeyMeans(a: Option<Value>, b: Option<Value>)
    requires WellFormed(a) && WellFormed(b)
    ensures PoolKey(a) == PoolKey(b) <==> Equivalent(a, b)
  {
    assert Means(Obj([])) == MObj(map[]);
    TextMeans(Config(a), Config(b));
  }

  /** A holder releases, once, a configuration equivalent to the one it acquired. */
  ghost predicate Enabled(r: Run, s: Step) {
    && WellFormed(s.config)
    && (s.DoRelease? ==> s.holder in r.held && Equivalent(r.held[s.holder].config, s.config))
  }

  function Apply(r: Run, s: Step): (result: Run) {
    match s
    case DoAcquire(config) =>
      var (pools, pool) := Acquire(r.pools, PoolKey(config));
      Run(pools, r.held[r.acquired := Held(config, PoolKey(config), pool)], r.acquired + 1)
    case DoRelease(holder, config) =>
      Run(Release(r.pools, PoolKey(config)), r.held - {holder}, r.acquired)
  }

  ghost predicate Follows(steps: seq<Step>, r: Run) {
    if steps == [] then r == Run(Pools(map[], 0, {}), map[], 0) else
      var last := |steps| - 1;
      exists before: Run ::
        Follows(steps[..last], before) && Enabled(before, steps[last]) && r == Apply(before, steps[last])
  }

  /** Anyone can acquire, and every holder can release what it acquired. */
  lemma RunsGoOn(steps: seq<Step>, r: Run, config: Option<Value>)
    requires Follows(steps, r) && (config.None? || Valid(config.value))
    ensures Follows([], Run(Pools(map[], 0, {}), map[], 0))
    ensures Follows(steps + [DoAcquire(config)], Apply(r, DoAcquire(config)))
    ensures forall h :: h in r.held && WellFormed(r.held[h].config) ==>
              Follows(steps + [DoRelease(h, r.held[h].config)], Apply(r, DoRelease(h, r.held[h].config)))
  {
    forall s | Enabled(r, s) ensures Follows(steps + [s], Apply(r, s)) {
      assert (steps + [s])[..|steps + [s]| - 1] == steps;
    }
    assert Enabled(r, DoAcquire(config));
    forall h | h in r.held && WellFormed(r.held[h].config)
      ensures Follows(steps + [DoRelease(h, r.held[h].config)], Apply(r, DoRelease(h, r.held[h].config)))
    {
      assert Enabled(r, DoRelease(h, r.held[h].config));
    }
  }

  function Holders(held: map<nat, Held>, key: Text): (r: set<nat>) {
    set h | h in held && held[h].key == key
  }

  /** Registered pools are distinct and running, and every pool made is registered or ended. */
  ghost predicate RegistryOk(s: Pools) {
    && (forall key :: key in s.registry ==> s.registry[key].pool < s.made && s.registry[key].pool !in s.ended)
    && (forall k1, k2 :: k1 in s.registry && k2 in s.registry && k1 != k2 ==>
          s.registry[k1].pool != s.registry[k2].pool)
    && (forall p :: p in s.ended ==> p < s.made)
    && (forall p :: 0 <= p < s.made && p !in s.ended ==> Live(s.registry, p))
  }

  ghost predicate Live(registry: map<Text, PoolEntry>, p: nat) {
    exists key :: key in registry && registry[key].pool == p
  }

  ghost predicate HeldOk(s: Pools, held: map<nat, Held>) {
    forall h :: h in held ==> held[h].key in s.registry && s.registry[held[h].key].pool == held[h].pool
  }

  ghost predicate CountOk(s: Pools, held: map<nat, Held>, key: Text) {
    key in s.registry ==> |Holders(held, key)| == s.registry[key].refCount && s.registry[key].refCount > 0
  }

  ghost predicate CountsOk(s: Pools, held: map<nat, Held>) {
    forall key :: CountOk(s, held, key)
  }

  ghost predicate Inv(r: Run) {
    && (forall h :: h in r.held ==> h < r.acquired)
    && (forall h :: h in r.held ==> WellFormed(r.held[h].config) && r.held[h].key == PoolKey(r.held[h].config))
    && RegistryOk(r.pools)
    && HeldOk(r.pools, r.held)
    && CountsOk(r.pools, r.held)
  }

  lemma HoldersAfterAcquire(held: map<nat, Held>, n: nat, h: Held, key: Text)
    requires n !in held
    ensures n !in Holders(held, key)
    ensures Holders(held[n := h], key) == if h.key == key then Holders(held, key) + {n} else Holders(held, key)
  {
  }

  lemma HoldersAfterRelease(held: map<nat, Held>, n: nat, key: Text)
    requires n in held
    ensures Holders(held - {n}, key) == Holders(held, key) - {n}
    ensures n in Holders(held, key) <==> held[n].key == key
  {
  }

  lemma AcquireKeepsRegistry(s: Pools, key: Text)
    requires RegistryOk(s)
    ensures RegistryOk(Acquire(s, key).0)
  {
    var (n, pool) := Acquire(s, key);
    assert key in n.registry && n.registry[key].pool == pool;
    forall p | 0 <= p < n.made && p !in n.ended ensures Live(n.registry, p) {
      if p != pool {
        assert Live(s.registry, p);
        var k :| k in s.registry && s.registry[k].pool == p;
        assert k in n.registry && n.registry[k].pool == p;
      }
    }
  }

  lemma CountDownKeepsRegistry(s: Pools, key: Text, count: int)
    requires RegistryOk(s) && key in s.registry
    ensures RegistryOk(s.(registry := s.registry[key := s.registry[key].(refCount := count)]))
  {
    var registry := s.registry[key := s.registry[key].(refCount := count)];
    assert forall k :: k in s.registry ==> registry[k].pool == s.registry[k].pool;
    forall p | 0 <= p < s.made && p !in s.ended ensures Live(registry, p) {
      assert Live(s.registry, p);
      var k :| k in s.registry && s.registry[k].pool == p;
      assert k in registry;
    }
  }

  lemma DropKeepsRegistry(s: Pools, key: Text)
    requires RegistryOk(s) && key in s.registry
    ensures RegistryOk(s.(registry := s.registry - {key}, ended := s.ended + {s.registry[key].pool}))
  {
    var registry := s.registry - {key};
    assert forall k :: k in registry ==> registry[k] == s.registry[k] && k != key;
    forall p | 0 <= p < s.made && p !in s.ended && p != s.registry[key].pool ensures Live(registry, p) {
      assert Live(s.registry, p);
      var k :| k in s.registry && s.registry[k].pool == p;
      assert k in registry;
    }
  }

  lemma ReleaseKeepsRegistry(s: Pools, key: Text)
    requires RegistryOk(s)
    ensures RegistryOk(Release(s, key))
  {
    if key in s.registry {
      CountDownKeepsRegistry(s, key, s.registry[key].refCount - 1);
      DropKeepsRegistry(s, key);
    }
  }

  lemma AcquireKeepsHolders(s: Pools, held: map<nat, Held>, n: nat, h: Held)
    requires HeldOk(s, held) && CountsOk(s, held) && n !in held
    requires h.pool == Acquire(s, h.key).1
    ensures var after := Acquire(s, h.key).0;
            HeldOk(after, held[n := h]) && CountsOk(after, held[n := h])
  {
    var after := Acquire(s, h.key).0;
    var next := held[n := h];
    forall key ensures CountOk(after, next, key) {
      HoldersAfterAcquire(held, n, h, key);
      assert CountOk(s, held, key);
      if key == h.key && key !in s.registry {
        assert Holders(held, key) == {};
      }
    }
  }

  lemma ReleaseKeepsHolders(s: Pools, held: map<nat, Held>, n: nat)
    requires HeldOk(s, held) && CountsOk(s, held) && n in held
    ensures var after := Release(s, held[n].key);
            HeldOk(after, held - {n}) && CountsOk(after, held - {n})
  {
    var mine := held[n].key;
    var after := Release(s, mine);
    var next := held - {n};
    assert CountOk(s, held, mine);
    forall key ensures CountOk(after, next, key) {
      HoldersAfterRelease(held, n, key);
      assert CountOk(s, held, key);
    }
    forall h | h in held - {n} ensures held[h].key in after.registry {
      if held[h].key == mine {
        TwoHolders(held, mine, n, h);
      }
    }
  }

  lemma TwoHolders(held: map<nat, Held>, key: Text, a: nat, b: nat)
    requires a in Holders(held, key) && b in Holders(held, key) && a != b
    ensures |Holders(held, key)| >= 2
  {
    assert b in Holders(held, key) - {a};
    assert |Holders(held, key) - {a}| >= 1;
  }

  lemma StepKeeps(r: Run, s: Step)
    requires Inv(r) && Enabled(r, s)
    ensures Inv(Apply(r, s))
  {
    match s {
      case DoAcquire(config) =>
        var key := PoolKey(config);
        AcquireKeepsRegistry(r.pools, key);
        AcquireKeepsHolders(r.pools, r.held, r.acquired, Held(config, key, Acquire(r.pools, key).1));
      case DoRelease(holder, config) =>
        KeyMeans(r.held[holder].config, config);
        ReleaseKeepsRegistry(r.pools, PoolKey(config));
        ReleaseKeepsHolders(r.pools, r.held, holder);
    }
  }

  lemma {:induction false} RunKeeps(steps: seq<Step>, r: Run)
    requires Follows(steps, r)
    ensures Inv(r)
  {
    if steps != [] {
      var last := |steps| - 1;
      var before: Run :| Follows(steps[..last], before) && Enabled(before, steps[last])
                         && r == Apply(before, steps[last]);
      RunKeeps(steps[..last], before);
      StepKeeps(before, steps[last]);
    }
  }

  /** Two holders have the same pool exactly when their configurations are equal up to key order, and
      nobody holds a pool that was ended. */
  lemma PoolsAreShared(steps: seq<Step>, r: Run, g: nat, h: nat)
    requires Follows(steps, r) && g in r.held && h in r.held
    ensures r.held[g].pool == r.held[h].pool <==> Equivalent(r.held[g].config, r.held[h].config)
    ensures r.held[g].pool !in r.pools.ended
  {
    RunKeeps(steps, r);
    KeyMeans(r.held[g].config, r.held[h].config);
  }

  /** In particular the holders of two configurations that differ in one setting have different pools. */
  lemma DifferentHostsDifferentPools(steps: seq<Step>, r: Run, g: nat, h: nat, key: Text, a: Text, b: Text)
    requires Follows(steps, r) && g in r.held && h in r.held && a != b
    requires r.held[g].config == Some(Obj([Member(key, Str(a))]))
    requires r.held[h].config == Some(Obj([Member(key, Str(b))]))
    ensures r.held[g].pool != r.held[h].pool
  {
    PoolsAreShared(steps, r, g, h);
    OneSetting(key, a);
    OneSetting(key, b);
    assert map[key := MStr(a)][key] == MStr(a) && map[key := MStr(b)][key] == MStr(b);
  }

  lemma OneSetting(key: Text, a: Text)
    ensures Means(Obj([Member(key, Str(a))])) == MObj(map[key := MStr(a)])
  {
    var ms := [Member(key, Str(a))];
    assert ms[0] == Member(key, Str(a)) && ms[1..] == [];
    assert MeansMembers(ms[1..]) == map[] && MeansMembers(ms) == map[][key := MStr(a)];
  }

  // ---- who holds what, told from the steps ----

  /** How many acquires a run has had. */
  function Acquired(steps: seq<Step>): (n: nat)
  {
    if steps == [] then 0 else
      var before := Acquired(steps[..|steps| - 1]);
      if steps[|steps| - 1].DoAcquire? then before + 1 else before
  }

  /** The configurations acquired and not released, by the number of the acquire. */
  function HeldAfter(steps: seq<Step>): (held: map<nat, Option<Value>>)
  {
    if steps == [] then map[] else
      var earlier := steps[..|steps| - 1];
      match steps[|steps| - 1]
      case DoAcquire(config) => HeldAfter(earlier)[Acquired(earlier) := config]
      case DoRelease(holder, _) => HeldAfter(earlier) - {holder}
  }

  /** Every acquire makes a holder and only its release unmakes it. */
  lemma {:induction false} HoldersFollowTheSteps(steps: seq<Step>, r: Run)
    requires Follows(steps, r)
    ensures r.acquired == Acquired(steps) && r.held.Keys == HeldAfter(steps).Keys
    ensures forall h :: h in r.held ==> r.held[h].config == HeldAfter(steps)[h]
  {
    if steps != [] {
      var last := |steps| - 1;
      var before: Run :| Follows(steps[..last], before) && Enabled(before, steps[last])
                         && r == Apply(before, steps[last]);
      HoldersFollowTheSteps(steps[..last], before);
    }
  }

  ghost function Sharers(held: map<nat, Held>, config: Option<Value>): (r: set<nat>) {
    set h | h in held && Equivalent(held[h].config, config)
  }

  /** A configuration's count is the number of holders of equivalent configurations; it has an entry exactly
      while there is one. */
  lemma CountIsHolders(steps: seq<Step>, r: Run, config: Option<Value>)
    requires Follows(steps, r) && WellFormed(config)
    ensures PoolKey(config) in r.pools.registry <==> Sharers(r.held, config) != {}
    ensures PoolKey(config) in r.pools.registry ==>
              r.pools.registry[PoolKey(config)].refCount == |Sharers(r.held, config)|
  {
    RunKeeps(steps, r);
    var key := PoolKey(config);
    forall h | h in r.held ensures h in Holders(r.held, key) <==> h in Sharers(r.held, config) {
      KeyMeans(r.held[h].config, config);
    }
    assert Holders(r.held, key) == Sharers(r.held, config);
    assert CountOk(r.pools, r.held, key);
    if key !in r.pools.registry {
      assert Holders(r.held, key) == {};
    }
  }

  /** A pool has been ended exactly when none of its holders is left. */
  lemma EndedWhenLastLeaves(steps: seq<Step>, r: Run, p: nat)
    requires Follows(steps, r) && p < r.pools.made
    ensures p in r.pools.ended <==> forall h :: h in r.held ==> r.held[h].pool != p
  {
    RunKeeps(steps, r);
    if p !in r.pools.ended {
      assert Live(r.pools.registry, p);
      var key :| key in r.pools.registry && r.pools.registry[key].pool == p;
      assert CountOk(r.pools, r.held, key);
      assert Holders(r.held, key) != {};
      var h :| h in Holders(r.held, key);
    }
  }

  /** One release too many ends a pool that somebody still holds. */
  lemma UnmatchedReleaseEndsAHeldPool(s: Pools, key: Text)
    requires key !in s.registry
    ensures var (one, p) := Acquire(s, key);
            var (two, q) := Acquire(one, key);
            p == q && p in Release(Release(two, key), key).ended
  {
    var (one, p) := Acquire(s, key);
    var (two, q) := Acquire(one, key);
    assert two.registry[key] == PoolEntry(p, 2);
    var once := Release(two, key);
    assert once.registry[key] == PoolEntry(p, 1);
  }
}
