/** packages/cache/src/cache.ts: what the reads of a CacheStorage give, told from the list of operations alone. */
module CacheHistory {
  import opened CacheStorage
  import opened Common

  /** What a key's last write has come to: its value, its time, and the other keys written since and still there. */
  datatype Memory<V> = Memory(value: V, at: int, newer: set<string>)

  /** The key's own story, without a store: a write begins it anew, a deletion aimed at the key ends it, and so does the
      write that brings the keys written since up to the size bound. */
  function Recall<V>(o: Options, ts: seq<Timed<V>>, k: string): (m: Option<Memory<V>>)
  {
    if ts == [] then None else
      var t, before := ts[|ts| - 1], Recall(o, ts[..|ts| - 1], k);
      match t.op
      case Read(_) => before
      case Collect => before
      case Delete(key) => if Hits(key, k) then None else Spared(before, key)
      case Write(key, value) => if key == k then Some(Memory(value, t.at, {})) else Pushed(o, before, key)
  }

  function Spared<V>(m: Option<Memory<V>>, key: string): (r: Option<Memory<V>>) {
    match m
    case None => None
    case Some(x) => Some(x.(newer := set n | n in x.newer && !Hits(key, n)))
  }

  function Pushed<V>(o: Options, m: Option<Memory<V>>, key: string): (r: Option<Memory<V>>) {
    match m
    case None => None
    case Some(x) =>
      var newer := x.newer + {key};
      if o.maxSize != 0 && |newer| >= o.maxSize then None else Some(x.(newer := newer))
  }

  // ---- lists of entries and their keys ----

  function KeysOf<V>(es: seq<Entry<V>>): (keys: set<string>) {
    set i | 0 <= i < |es| :: es[i].key
  }

  lemma KeyIn<V>(es: seq<Entry<V>>, k: string)
    ensures k in KeysOf(es) <==> exists i :: 0 <= i < |es| && es[i].key == k
    ensures k in KeysOf(es) <==> Lookup(es, k).Some?
  {
    if Lookup(es, k).Some? {
      var i :| 0 <= i < |es| && es[i] == Lookup(es, k).value;
    }
  }

  lemma {:induction false} CountKeys<V>(es: seq<Entry<V>>)
    requires DistinctKeys(es)
    ensures |KeysOf(es)| == |es|
  {
    if es != [] {
      CountKeys(es[1..]);
      KeysCons(es[0], es[1..]);
      assert es == [es[0]] + es[1..];
      KeyIn(es[1..], es[0].key);
    } else {
      assert KeysOf(es) == {};
    }
  }

  lemma KeysCons<V>(e: Entry<V>, es: seq<Entry<V>>)
    ensures KeysOf([e] + es) == {e.key} + KeysOf(es)
  {
    var all := [e] + es;
    assert all[0] == e && all[1..] == es;
    forall k | k in KeysOf(es) ensures k in KeysOf(all) {
      var i :| 0 <= i < |es| && es[i].key == k;
      assert all[i + 1].key == k;
    }
  }

  lemma KeysSnoc<V>(es: seq<Entry<V>>, e: Entry<V>)
    ensures KeysOf(es + [e]) == KeysOf(es) + {e.key}
  {
    var all := es + [e];
    assert all[|es|] == e;
    forall k | k in KeysOf(es) ensures k in KeysOf(all) {
      var i :| 0 <= i < |es| && es[i].key == k;
      assert all[i].key == k;
    }
  }

  lemma KeysKept<V>(es: seq<Entry<V>>, p: Pick)
    requires DistinctKeys(es) && !p.Alive?
    ensures KeysOf(Keep(es, p)) == set k | k in KeysOf(es) && KeyPasses(k, p)
  {
    forall k ensures k in KeysOf(Keep(es, p)) <==> k in KeysOf(es) && KeyPasses(k, p) {
      LookupKept(es, p, k);
      KeyIn(es, k);
      KeyIn(Keep(es, p), k);
    }
  }

  /** The selections that look at keys only. */
  predicate KeyPasses(k: string, p: Pick)
    requires !p.Alive?
  {
    match p
    case OtherKey(key) => k != key
    case OtherPrefix(prefix) => !(prefix <= k)
  }

  lemma DeletingSpares(key: string, k: string)
    ensures !Deleting(key).Alive? && (KeyPasses(k, Deleting(key)) <==> !Hits(key, k))
  {
  }

  /** Where an entry of a selection comes from: what follows it there is the selection of what followed it before. */
  lemma {:induction false} KeptAt<V>(es: seq<Entry<V>>, p: Pick, i: nat) returns (j: nat)
    requires i < |Keep(es, p)|
    ensures j < |es| && es[j] == Keep(es, p)[i] && Keep(es, p)[i + 1..] == Keep(es[j + 1..], p)
    ensures Passes(es[j], p)
  {
    var rest := Keep(es[1..], p);
    if Passes(es[0], p) && i == 0 {
      j := 0;
      assert ([es[0]] + rest)[1..] == rest;
    } else if Passes(es[0], p) {
      var k := KeptAt(es[1..], p, i - 1);
      j := k + 1;
      assert es[1..][k + 1..] == es[j + 1..];
      assert ([es[0]] + rest)[i] == rest[i - 1] && ([es[0]] + rest)[i + 1..] == rest[i..];
    } else {
      var k := KeptAt(es[1..], p, i);
      j := k + 1;
      assert es[1..][k + 1..] == es[j + 1..];
    }
  }

  // ---- the live entries and the stories of their keys ----

  /** Each live entry is as its key's story says, and what follows it are the keys written since. */
  ghost predicate Told<V>(o: Options, ts: seq<Timed<V>>, view: seq<Entry<V>>) {
    forall i :: 0 <= i < |view| ==> ToldAt(o, ts, view, i)
  }

  ghost predicate ToldAt<V>(o: Options, ts: seq<Timed<V>>, view: seq<Entry<V>>, i: nat)
    requires i < |view|
  {
    Recall(o, ts, view[i].key) == Some(Memory(view[i].value, view[i].timestamp, KeysOf(view[i + 1..])))
  }

  /** No story that is still fresh lacks its entry. */
  ghost predicate Complete<V>(o: Options, ts: seq<Timed<V>>, view: seq<Entry<V>>, now: int) {
    forall k :: FreshAt(o, ts, now, k) ==> k in KeysOf(view)
  }

  predicate FreshAt<V>(o: Options, ts: seq<Timed<V>>, now: int, k: string) {
    Recall(o, ts, k).Some? && Lives(o, Recall(o, ts, k).value.at, now)
  }

  lemma {:induction false} AliveIsSuffix<V>(o: Options, es: seq<Entry<V>>, now: int) returns (n: nat)
    requires Ordered(es)
    ensures n <= |es| && View(o, es, now) == es[n..]
    ensures forall i :: 0 <= i < n ==> !Lives(o, es[i].timestamp, now)
  {
    if es == [] {
      n := 0;
    } else if Lives(o, es[0].timestamp, now) {
      n := 0;
      forall e | e in es ensures Passes(e, Alive(now, o.ttl)) {
        var i :| 0 <= i < |es| && es[i] == e;
        assert es[0].timestamp <= es[i].timestamp;
      }
      KeepAll(es, Alive(now, o.ttl));
    } else {
      var k := AliveIsSuffix(o, es[1..], now);
      n := k + 1;
      assert es[1..][k..] == es[n..];
    }
  }

  /** As time goes by, entries expire from the front. */
  lemma TimePasses<V>(o: Options, ts: seq<Timed<V>>, view: seq<Entry<V>>, before: int, now: int)
    requires Ordered(view) && Told(o, ts, view) && Complete(o, ts, view, before) && before <= now
    ensures Told(o, ts, View(o, view, now)) && Complete(o, ts, View(o, view, now), now)
  {
    var n := AliveIsSuffix(o, view, now);
    var live := view[n..];
    forall i | 0 <= i < |live| ensures ToldAt(o, ts, live, i) {
      assert ToldAt(o, ts, view, n + i);
      assert live[i] == view[n + i] && live[i + 1..] == view[n + i + 1..];
    }
    forall k | FreshAt(o, ts, now, k) ensures k in KeysOf(live) {
      assert FreshAt(o, ts, before, k);
      var i :| 0 <= i < |view| && view[i].key == k;
      assert ToldAt(o, ts, view, i);
      assert live[i - n] == view[i];
    }
  }

  /** The operations up to the last one, which is `t`. */
  ghost predicate Extends<V>(ts: seq<Timed<V>>, before: seq<Timed<V>>, t: Timed<V>) {
    ts != [] && ts[..|ts| - 1] == before && ts[|ts| - 1] == t
  }

  lemma DeleteTold<V>(o: Options, before: seq<Timed<V>>, t: Timed<V>, ts: seq<Timed<V>>, live: seq<Entry<V>>)
    requires Extends(ts, before, t) && t.op.Delete? && DistinctKeys(live)
    requires Told(o, before, live) && Complete(o, before, live, t.at)
    ensures var es := Keep(live, Deleting(t.op.key)); Told(o, ts, es) && Complete(o, ts, es, t.at)
  {
    var p, es := Deleting(t.op.key), Keep(live, Deleting(t.op.key));
    DeletingSpares(t.op.key, "");
    forall i | 0 <= i < |es| ensures ToldAt(o, ts, es, i) {
      var j := KeptAt(live, p, i);
      assert ToldAt(o, before, live, j);
      DeletedNewer(t.op.key, live[j + 1..]);
      DeletingSpares(t.op.key, es[i].key);
    }
    KeysKept(live, p);
    forall k | FreshAt(o, ts, t.at, k) ensures k in KeysOf(es) {
      DeletingSpares(t.op.key, k);
      assert FreshAt(o, before, t.at, k);
    }
  }

  lemma DeletedNewer<V>(key: string, es: seq<Entry<V>>)
    requires DistinctKeys(es)
    ensures KeysOf(Keep(es, Deleting(key))) == set n | n in KeysOf(es) && !Hits(key, n)
  {
    DeletingSpares(key, "");
    KeysKept(es, Deleting(key));
    forall k ensures KeyPasses(k, Deleting(key)) <==> !Hits(key, k) { DeletingSpares(key, k); }
  }

  /** What follows an entry after a write: what followed it before, and the key written. */
  lemma WrittenBehind<V>(o: Options, live: seq<Entry<V>>, e: Entry<V>, i: nat) returns (j: nat)
    requires DistinctKeys(live) && i < |Keep(live, OtherKey(e.key))|
    ensures var others := Keep(live, OtherKey(e.key));
            && j < |live| && live[j] == others[i] && live[j].key != e.key
            && KeysOf(live[j + 1..]) + {e.key} == KeysOf(others[i + 1..] + [e])
            && |KeysOf(live[j + 1..]) + {e.key}| == |others| - i
  {
    var others := Keep(live, OtherKey(e.key));
    j := KeptAt(live, OtherKey(e.key), i);
    KeysKept(live[j + 1..], OtherKey(e.key));
    KeysSnoc(others[i + 1..], e);
    KeepDistinct(live, OtherKey(e.key));
    KeepDrops(live, OtherKey(e.key));
    AppendDistinct(others[i + 1..], e);
    CountKeys(others[i + 1..] + [e]);
  }

  lemma WriteTold<V>(o: Options, before: seq<Timed<V>>, t: Timed<V>, ts: seq<Timed<V>>, live: seq<Entry<V>>)
    requires Extends(ts, before, t) && t.op.Write? && DistinctKeys(live) && (o.maxSize != 0 ==> |live| <= o.maxSize)
    requires Told(o, before, live)
    ensures Told(o, ts, Put(o, live, t.op.key, t.op.value, t.at))
  {
    var e := Entry(t.op.key, t.op.value, t.at);
    var es, others := Put(o, live, e.key, e.value, e.timestamp), Keep(live, OtherKey(e.key));
    var d := if Full(o, others) then 1 else 0;
    assert es == others[d..] + [e];
    forall i | 0 <= i < |es| ensures ToldAt(o, ts, es, i) {
      if i + d < |others| {
        assert es[i] == others[i + d] && es[i + 1..] == others[i + d + 1..] + [e];
        OlderTold(o, before, t, ts, live, i + d);
      } else {
        assert es[i] == e && es[i + 1..] == [] && KeysOf(es[i + 1..]) == {};
      }
    }
  }

  lemma OlderTold<V>(o: Options, before: seq<Timed<V>>, t: Timed<V>, ts: seq<Timed<V>>, live: seq<Entry<V>>, i: nat)
    requires Extends(ts, before, t) && t.op.Write? && DistinctKeys(live) && Told(o, before, live)
    requires var others := Keep(live, OtherKey(t.op.key));
             i < |others| && (o.maxSize != 0 ==> |others| - i < o.maxSize)
    ensures var others, e := Keep(live, OtherKey(t.op.key)), Entry(t.op.key, t.op.value, t.at);
            Recall(o, ts, others[i].key)
            == Some(Memory(others[i].value, others[i].timestamp, KeysOf(others[i + 1..] + [e])))
  {
    var e := Entry(t.op.key, t.op.value, t.at);
    var j := WrittenBehind(o, live, e, i);
    assert ToldAt(o, before, live, j);
    StillTold(o, before, t, ts, live[j], KeysOf(live[j + 1..]));
  }

  lemma StillTold<V>(o: Options, before: seq<Timed<V>>, t: Timed<V>, ts: seq<Timed<V>>, e: Entry<V>, newer: set<string>)
    requires Extends(ts, before, t) && t.op.Write? && t.op.key != e.key
    requires Recall(o, before, e.key) == Some(Memory(e.value, e.timestamp, newer))
    requires o.maxSize == 0 || |newer + {t.op.key}| < o.maxSize
    ensures Recall(o, ts, e.key) == Some(Memory(e.value, e.timestamp, newer + {t.op.key}))
  {
  }

  /** The entry that a write evicts is the one whose story it ends. */
  lemma OldestIsPushed<V>(o: Options, before: seq<Timed<V>>, t: Timed<V>, ts: seq<Timed<V>>, live: seq<Entry<V>>)
    requires Extends(ts, before, t) && t.op.Write? && DistinctKeys(live)
    requires Told(o, before, live) && Full(o, Keep(live, OtherKey(t.op.key)))
    ensures Recall(o, ts, Keep(live, OtherKey(t.op.key))[0].key) == None
  {
    var e := Entry(t.op.key, t.op.value, t.at);
    var j := WrittenBehind(o, live, e, 0);
    assert ToldAt(o, before, live, j);
  }

  lemma WriteComplete<V>(o: Options, before: seq<Timed<V>>, t: Timed<V>, ts: seq<Timed<V>>, live: seq<Entry<V>>)
    requires Extends(ts, before, t) && t.op.Write? && DistinctKeys(live)
    requires Told(o, before, live) && Complete(o, before, live, t.at)
    ensures Complete(o, ts, Put(o, live, t.op.key, t.op.value, t.at), t.at)
  {
    var key, es := t.op.key, Put(o, live, t.op.key, t.op.value, t.at);
    forall k | FreshAt(o, ts, t.at, k) ensures k in KeysOf(es) {
      if k != key {
        assert FreshAt(o, before, t.at, k);
        if Full(o, Keep(live, OtherKey(key))) { OldestIsPushed(o, before, t, ts, live); }
      }
      WriteMeans(o, live, key, t.op.value, t.at, k);
      KeyIn(live, k);
      KeyIn(es, k);
    }
  }

  lemma StepTold<V>(o: Options, before: seq<Timed<V>>, t: Timed<V>, ts: seq<Timed<V>>, view: seq<Entry<V>>, at: int)
    requires Extends(ts, before, t) && Inv(o, view, at) && at <= t.at
    requires Told(o, before, view) && Complete(o, before, view, at)
    ensures Told(o, ts, SpecDo(o, view, t).0) && Complete(o, ts, SpecDo(o, view, t).0, t.at)
  {
    var live := View(o, view, t.at);
    TimePasses(o, before, view, at, t.at);
    KeepInv(o, view, at, Alive(t.at, o.ttl));
    match t.op {
      case Delete(_) => DeleteTold(o, before, t, ts, live);
      case Write(_, _) =>
        WriteTold(o, before, t, ts, live);
        WriteComplete(o, before, t, ts, live);
      case _ =>
        forall i | 0 <= i < |live| ensures ToldAt(o, ts, live, i) { assert ToldAt(o, before, live, i); }
        forall k | FreshAt(o, ts, t.at, k) ensures k in KeysOf(live) { assert FreshAt(o, before, t.at, k); }
    }
  }

  lemma {:induction false} RunTold<V>(o: Options, ts: seq<Timed<V>>, now: int)
    requires ClockRuns(ts) && (ts != [] ==> now == ts[|ts| - 1].at)
    ensures Inv(o, RunSpec(o, ts).0, now)
    ensures Told(o, ts, RunSpec(o, ts).0) && Complete(o, ts, RunSpec(o, ts).0, now)
  {
    if ts != [] {
      var last := |ts| - 1;
      var at := if last == 0 then now else ts[last - 1].at;
      RunTold(o, ts[..last], at);
      StepTold(o, ts[..last], ts[last], ts, RunSpec(o, ts[..last]).0, at);
      StoreRefinesLiveView(o, ts);
      KeepInv(o, RunStore(o, ts).0.entries, now, Alive(now, o.ttl));
    }
  }

  lemma {:induction false} AnswersStay<V>(o: Options, ts: seq<Timed<V>>, n: nat)
    requires n <= |ts|
    ensures RunStore(o, ts).1[..n] == RunStore(o, ts[..n]).1
    decreases |ts|
  {
    if n < |ts| {
      var last := |ts| - 1;
      AnswersStay(o, ts[..last], n);
      assert ts[..last][..n] == ts[..n];
      assert RunStore(o, ts).1[..n] == RunStore(o, ts[..last]).1[..n];
    } else {
      assert ts[..n] == ts;
    }
  }

  /** Every read of every run, from the operations before it alone: the value of the key's last write, if nothing has
      ended its story since and it still lives. */
  lemma ReadsFollowTheOperations<V>(o: Options, ts: seq<Timed<V>>, i: nat)
    requires ClockRuns(ts) && i < |ts| && ts[i].op.Read?
    ensures var m := Recall(o, ts[..i], ts[i].op.key);
            RunStore(o, ts).1[i] == if m.Some? && Lives(o, m.value.at, ts[i].at) then Some(m.value.value) else None
  {
    var upto, before := ts[..i + 1], ts[..i];
    assert upto[..i] == before && upto[i] == ts[i];
    AnswersStay(o, ts, i + 1);
    assert RunStore(o, ts).1[i] == RunStore(o, ts).1[..i + 1][i];
    StoreRefinesLiveView(o, upto);
    LastReadTold(o, before, ts[i], upto);
  }

  lemma LastReadTold<V>(o: Options, before: seq<Timed<V>>, t: Timed<V>, upto: seq<Timed<V>>)
    requires Extends(upto, before, t) && ClockRuns(upto) && t.op.Read?
    ensures var m := Recall(o, before, t.op.key);
            RunSpec(o, upto).1[|before|] == if m.Some? && Lives(o, m.value.at, t.at) then Some(m.value.value) else None
  {
    var k := t.op.key;
    RunTold(o, upto, t.at);
    var live := RunSpec(o, upto).0;
    assert Recall(o, upto, k) == Recall(o, before, k);
    KeyIn(live, k);
    if Lookup(live, k).Some? {
      var j :| 0 <= j < |live| && live[j] == Lookup(live, k).value;
      assert ToldAt(o, upto, live, j);
      LiveLives(o, RunSpec(o, before).0, t.at, live[j]);
    } else {
      assert !FreshAt(o, upto, t.at, k);
    }
  }

  lemma LiveLives<V>(o: Options, es: seq<Entry<V>>, now: int, e: Entry<V>)
    requires e in View(o, es, now)
    ensures Lives(o, e.timestamp, now)
  {
    KeepDrops(es, Alive(now, o.ttl));
  }

  // ---- in plain words ----

  /** Operation j wrote the key, and nothing has written or deleted it since. */
  ghost predicate LastWrite<V>(ts: seq<Timed<V>>, k: string, j: nat) {
    && j < |ts| && ts[j].op.Write? && ts[j].op.key == k
    && forall i :: j < i < |ts| ==>
         !(ts[i].op.Write? && ts[i].op.key == k) && !(ts[i].op.Delete? && Hits(ts[i].op.key, k))
  }

  /** The keys written after operation j. */
  function WrittenSince<V>(ts: seq<Timed<V>>, j: nat): (keys: set<string>) {
    set i | j < i < |ts| && ts[i].op.Write? :: ts[i].op.key
  }

  lemma {:induction false} RecallIsLastWrite<V>(o: Options, ts: seq<Timed<V>>, k: string) returns (j: nat)
    requires Recall(o, ts, k).Some?
    ensures LastWrite(ts, k, j)
    ensures ts[j].op.value == Recall(o, ts, k).value.value && ts[j].at == Recall(o, ts, k).value.at
  {
    var last := |ts| - 1;
    var t := ts[last];
    if t.op.Write? && t.op.key == k {
      j := last;
    } else {
      j := RecallIsLastWrite(o, ts[..last], k);
      assert forall i :: 0 <= i < last ==> ts[..last][i] == ts[i];
    }
  }

  lemma {:induction false} LastWriteIsRecalled<V>(o: Options, ts: seq<Timed<V>>, k: string, j: nat)
    requires LastWrite(ts, k, j) && (o.maxSize == 0 || |WrittenSince(ts, j)| < o.maxSize)
    ensures var m := Recall(o, ts, k);
            m.Some? && m.value.value == ts[j].op.value && m.value.at == ts[j].at
            && m.value.newer <= WrittenSince(ts, j)
    decreases |ts|
  {
    var last := |ts| - 1;
    if j < last {
      var before := ts[..last];
      assert forall i :: 0 <= i < last ==> before[i] == ts[i];
      assert WrittenSince(before, j) <= WrittenSince(ts, j);
      SubsetSmaller(WrittenSince(before, j), WrittenSince(ts, j));
      LastWriteIsRecalled(o, before, k, j);
      if ts[last].op.Write? {
        var newer := Recall(o, before, k).value.newer + {ts[last].op.key};
        assert ts[last].op.key in WrittenSince(ts, j);
        SubsetSmaller(newer, WrittenSince(ts, j));
      }
    }
  }

  /** Fewer other keys than the size bound allows have been written since, or there is no bound. */
  predicate Fits<V>(o: Options, ts: seq<Timed<V>>, j: nat) {
    o.maxSize == 0 || |WrittenSince(ts, j)| < o.maxSize
  }

  /** A read gives nothing else than the value of the key's last write, made at most `ttl` ago and not deleted since;
      and it gives that whenever the keys written since fit beside it. */
  lemma ReadGivesLastWrite<V>(o: Options, ts: seq<Timed<V>>, i: nat)
    requires ClockRuns(ts) && i < |ts| && ts[i].op.Read?
    ensures RunStore(o, ts).1[i].Some? ==>
              exists j: nat :: LastWrite(ts[..i], ts[i].op.key, j) && Lives(o, ts[j].at, ts[i].at)
                            && ts[j].op.value == RunStore(o, ts).1[i].value
    ensures forall j: nat :: (LastWrite(ts[..i], ts[i].op.key, j) && Lives(o, ts[j].at, ts[i].at)
                              && Fits(o, ts[..i], j)) ==> RunStore(o, ts).1[i] == Some(ts[j].op.value)
  {
    var before, k := ts[..i], ts[i].op.key;
    ReadsFollowTheOperations(o, ts, i);
    if Recall(o, before, k).Some? {
      var j := RecallIsLastWrite(o, before, k);
      assert before[j] == ts[j];
    }
    forall j: nat | LastWrite(before, k, j) && Lives(o, ts[j].at, ts[i].at) && Fits(o, before, j)
      ensures RunStore(o, ts).1[i] == Some(ts[j].op.value)
    {
      LastWriteIsRecalled(o, before, k, j);
      assert before[j] == ts[j];
    }
  }
}
