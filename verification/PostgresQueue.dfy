/** packages/postgres/src/postgresqueue.ts: the queue table under concurrent sends, receives and acks. */
module PostgresQueue {
  import opened Common

  /** Times are milliseconds; `vis` is the visibility timeout, `limit` the batch size. */
  datatype Config = Config(vis: nat, limit: nat)

  datatype Row = Row(payload: string, lockedUntil: Option<int>)

  /** A receive in progress: `now` is its transaction's now(), `picked` the rows it holds FOR UPDATE. */
  datatype Receive = Receive(now: int, picked: set<int>)

  /** A finished receive. */
  datatype Delivery = Delivery(ids: set<int>, at: int)

  /** `sent`, `acked` (the rows an ack deleted) and `log` are history. */
  datatype State = State(
    clock: int,
    nextId: int,
    rows: map<int, Row>,
    receives: map<int, Receive>,
    sent: map<int, string>,
    acked: set<int>,
    log: seq<Delivery>)

  const START := State(0, 1, map[], map[], map[], {}, [])

  predicate Visible(r: Row, now: int) {
    r.lockedUntil.None? || r.lockedUntil.value < now
  }

  function PickedByOthers(s: State, w: int): (ids: set<int>) {
    set v, id | v in s.receives && v != w && id in s.receives[v].picked :: id
  }

  function Selectable(rows: map<int, Row>, now: int, skip: set<int>): (ids: set<int>) {
    set id | id in rows && Visible(rows[id], now) && id !in skip
  }

  /** The rows a receive may take: visible in their latest version, and not locked by another one. */
  function Candidates(s: State, w: int): (ids: set<int>)
    requires w in s.receives
  {
    Selectable(s.rows, s.receives[w].now, PickedByOthers(s, w))
  }

  /** The lowest ids among the candidates, at most `limit` of them. */
  predicate IsBatch(candidates: set<int>, batch: set<int>, limit: nat) {
    && batch <= candidates && |batch| <= limit
    && (|batch| < limit ==> batch == candidates)
    && forall i, j :: i in batch && j in candidates && j !in batch ==> i < j
  }

  datatype Step =
    | Tick(to: int)
    | Send(payload: string)
    | Begin(w: int)
    | Pick(w: int, batch: set<int>)
    | Commit(w: int)
    | Abort(w: int)
    | Ack(id: int)

  /** A delete of a row that a receive holds waits for that receive. */
  predicate Enabled(c: Config, s: State, step: Step) {
    match step
    case Tick(to) => to >= s.clock
    case Send(_) => true
    case Begin(w) => w !in s.receives
    case Pick(w, batch) => w in s.receives && s.receives[w].picked == {} && IsBatch(Candidates(s, w), batch, c.limit)
    case Commit(w) => w in s.receives
    case Abort(w) => w in s.receives
    case Ack(id) => forall w :: w in s.receives ==> id !in s.receives[w].picked
  }

  function Apply(c: Config, s: State, step: Step): (r: State)
    requires Enabled(c, s, step)
  {
    match step
    case Tick(to) => s.(clock := to)
    case Send(payload) =>
      s.(nextId := s.nextId + 1, rows := s.rows[s.nextId := Row(payload, None)], sent := s.sent[s.nextId := payload])
    case Begin(w) => s.(receives := s.receives[w := Receive(s.clock, {})])
    case Pick(w, batch) => s.(receives := s.receives[w := s.receives[w].(picked := batch)])
    case Commit(w) =>
      var r := s.receives[w];
      s.(rows := LockRows(s.rows, r.picked, r.now + c.vis), receives := s.receives - {w},
         log := s.log + [Delivery(r.picked, r.now)])
    case Abort(w) => s.(receives := s.receives - {w})
    case Ack(id) => s.(rows := s.rows - {id}, acked := if id in s.rows then s.acked + {id} else s.acked)
  }

  function LockRows(rows: map<int, Row>, ids: set<int>, until: int): (r: map<int, Row>) {
    map id | id in rows :: if id in ids then rows[id].(lockedUntil := Some(until)) else rows[id]
  }

  ghost predicate Reaches(c: Config, steps: seq<Step>, s: State)
  {
    if steps == [] then s == START else
      var last := |steps| - 1;
      exists before: State ::
        Reaches(c, steps[..last], before) && Enabled(c, before, steps[last]) && s == Apply(c, before, steps[last])
  }

  /** The table: selecting and updating rows as the database runs the statements. */
  class QueueTable {
    const config: Config
    var rows: map<int, Row>
    var nextId: int

    /** Ids are positive, and none has been used that INSERT will draw. */
    predicate Valid()
      reads this
    {
      nextId > 0 && forall id :: id in rows ==> 0 < id < nextId
    }

    constructor (config: Config)
      ensures this.config == config && rows == map[] && nextId == 1 && Valid()
    {
      this.config := config;
      rows, nextId := map[], 1;
    }

    /** INSERT: one more message, behind all others in the order of ids and deliverable at once; the rows and locks
        that are there stay as they are. */
    method SendMessage(payload: string) returns (id: int)
      requires Valid()
      modifies this
      ensures Valid()
      ensures id !in old(rows) && rows.Keys == old(rows).Keys + {id}
      ensures forall i :: i in old(rows) ==> i < id && rows[i] == old(rows)[i]
      ensures rows[id].payload == payload && forall t :: id in Selectable(rows, t, {})
    {
      id := nextId;
      rows := rows[nextId := Row(payload, None)];
      nextId := nextId + 1;
    }

    /** The inner SELECT ... ORDER BY id FOR UPDATE SKIP LOCKED LIMIT. */
    method SelectForUpdate(now: int, skip: set<int>) returns (batch: set<int>)
      requires Valid()
      ensures IsBatch(Selectable(rows, now, skip), batch, config.limit)
    {
      ghost var all := Selectable(rows, now, skip);
      batch := {};
      var id := 1;
      while id < nextId && |batch| < config.limit
        invariant batch <= all && |batch| <= config.limit
        invariant forall i :: i in all && i < id ==> i in batch
        invariant forall i :: i in batch ==> i < id
      {
        if id in rows && Visible(rows[id], now) && id !in skip {
          batch := batch + {id};
        }
        id := id + 1;
      }
    }

    /** The outer UPDATE: no receive can select a row of the batch up to the end of its window, every one can after
        it, and what any other receive can select is unchanged; no message is lost or altered. */
    method LockBatch(batch: set<int>, now: int)
      requires Valid() && batch <= rows.Keys
      modifies this`rows
      ensures Valid() && rows.Keys == old(rows).Keys
      ensures forall id :: id in rows ==> rows[id].payload == old(rows)[id].payload
      ensures forall id, t, skip :: id in batch && id !in skip ==>
                (id in Selectable(rows, t, skip) <==> t > now + config.vis)
      ensures forall id, t, skip :: id !in batch ==>
                (id in Selectable(rows, t, skip) <==> id in Selectable(old(rows), t, skip))
      ensures rows == LockRows(old(rows), batch, now + config.vis)
    {
      rows := map id | id in rows :: if id in batch then rows[id].(lockedUntil := Some(now + config.vis)) else rows[id];
    }

    /** DELETE. */
    method DeleteMessage(id: int)
      requires Valid()
      modifies this`rows
      ensures Valid() && rows == old(rows) - {id}
    {
      rows := rows - {id};
    }
  }

  // ---- the invariant ----

  ghost predicate TableOk(s: State) {
    && (forall id :: id in s.sent <==> 0 < id < s.nextId)
    && (forall id :: id in s.rows ==> id in s.sent && s.rows[id].payload == s.sent[id] && id !in s.acked)
    && (forall id :: id in s.sent ==> id in s.rows || id in s.acked)
    && (forall id :: id in s.acked ==> id in s.sent)
    && s.nextId > 0
  }

  /** Rows held by a receive are visible to it, stay so, and are held by no other. */
  ghost predicate ReceivesOk(s: State) {
    && (forall w, id :: w in s.receives && id in s.receives[w].picked ==>
          id in s.rows && Visible(s.rows[id], s.receives[w].now))
    && (forall v, w, id :: v in s.receives && w in s.receives && v != w && id in s.receives[v].picked ==>
          id !in s.receives[w].picked)
    && (forall w :: w in s.receives ==> s.receives[w].now <= s.clock)
  }

  /** A delivered row that is still there is locked for the whole window after its last delivery. */
  ghost predicate LogOk(c: Config, s: State) {
    && (forall k, id :: 0 <= k < |s.log| && id in s.log[k].ids ==>
          id in s.sent
          && (id in s.rows ==> s.rows[id].lockedUntil.Some? && s.log[k].at + c.vis <= s.rows[id].lockedUntil.value))
    && (forall j, k, id :: 0 <= j < k < |s.log| && id in s.log[j].ids && id in s.log[k].ids ==>
          s.log[k].at > s.log[j].at + c.vis)
  }

  ghost predicate Inv(c: Config, s: State) {
    TableOk(s) && ReceivesOk(s) && LogOk(c, s)
  }

  lemma PickKeeps(c: Config, s: State, w: int, batch: set<int>)
    requires Inv(c, s) && Enabled(c, s, Pick(w, batch))
    ensures Inv(c, Apply(c, s, Pick(w, batch)))
  {
    var s' := Apply(c, s, Pick(w, batch));
    forall id | id in batch
      ensures id in s.rows && Visible(s.rows[id], s.receives[w].now) && id !in PickedByOthers(s, w)
    {
      assert id in Candidates(s, w);
    }
    forall v, id | v in s.receives && v != w && id in s.receives[v].picked ensures id !in batch {
      assert id in PickedByOthers(s, w);
    }
  }

  lemma CommitSpaces(c: Config, s: State, w: int, j: nat, k: nat, id: int)
    requires Inv(c, s) && Enabled(c, s, Commit(w)) && j < k < |Apply(c, s, Commit(w)).log|
    requires var log := Apply(c, s, Commit(w)).log; id in log[j].ids && id in log[k].ids
    ensures var log := Apply(c, s, Commit(w)).log; log[k].at > log[j].at + c.vis
  {
    var s', r := Apply(c, s, Commit(w)), s.receives[w];
    assert s'.log[j] == s.log[j];
    if k < |s.log| {
      assert s'.log[k] == s.log[k];
    } else {
      assert Visible(s.rows[id], r.now);
    }
  }

  lemma CommitKeeps(c: Config, s: State, w: int)
    requires Inv(c, s) && Enabled(c, s, Commit(w))
    ensures Inv(c, Apply(c, s, Commit(w)))
  {
    var s' := Apply(c, s, Commit(w));
    forall k, id | 0 <= k < |s'.log| && id in s'.log[k].ids
      ensures id in s'.sent
      ensures id in s'.rows ==> s'.rows[id].lockedUntil.Some? && s'.log[k].at + c.vis <= s'.rows[id].lockedUntil.value
    {
      if k < |s.log| { assert s'.log[k] == s.log[k]; }
    }
    forall j, k, id | 0 <= j < k < |s'.log| && id in s'.log[j].ids && id in s'.log[k].ids
      ensures s'.log[k].at > s'.log[j].at + c.vis
    {
      CommitSpaces(c, s, w, j, k, id);
    }
  }

  lemma AckKeeps(c: Config, s: State, id: int)
    requires Inv(c, s) && Enabled(c, s, Ack(id))
    ensures Inv(c, Apply(c, s, Ack(id)))
  {
  }

  lemma SendKeeps(c: Config, s: State, payload: string)
    requires Inv(c, s)
    ensures Inv(c, Apply(c, s, Send(payload)))
  {
  }

  lemma StepKeeps(c: Config, s: State, step: Step)
    requires Inv(c, s) && Enabled(c, s, step)
    ensures Inv(c, Apply(c, s, step))
  {
    match step {
      case Pick(w, batch) => PickKeeps(c, s, w, batch);
      case Commit(w) => CommitKeeps(c, s, w);
      case Ack(id) => AckKeeps(c, s, id);
      case Send(payload) => SendKeeps(c, s, payload);
      case _ =>
    }
  }

  lemma {:induction false} RunKeeps(c: Config, steps: seq<Step>, s: State)
    requires Reaches(c, steps, s)
    ensures Inv(c, s)
  {
    if steps != [] {
      var last := |steps| - 1;
      var before: State :| Reaches(c, steps[..last], before) && Enabled(c, before, steps[last])
                           && s == Apply(c, before, steps[last]);
      RunKeeps(c, steps[..last], before);
      StepKeeps(c, before, steps[last]);
    }
  }

  /** In every run: deliveries of one row are more than the visibility timeout apart, receives in progress
      hold disjoint rows, and each message sent is in the table, unchanged, unless its id was acked. */
  lemma QueueIsSafe(c: Config, steps: seq<Step>, s: State)
    requires Reaches(c, steps, s)
    ensures forall j, k, id :: 0 <= j < k < |s.log| && id in s.log[j].ids && id in s.log[k].ids ==>
      s.log[k].at > s.log[j].at + c.vis
    ensures forall v, w :: v in s.receives && w in s.receives && v != w ==>
      s.receives[v].picked !! s.receives[w].picked
    ensures forall id :: id in s.sent && id !in s.acked ==> id in s.rows && s.rows[id].payload == s.sent[id]
    ensures forall id :: id in s.rows ==> id in s.sent && id !in s.acked
  {
    RunKeeps(c, steps, s);
    forall v, w | v in s.receives && w in s.receives && v != w ensures s.receives[v].picked !! s.receives[w].picked {
      assert forall id :: id in s.receives[v].picked ==> id !in s.receives[w].picked;
    }
  }

  /** A batch is determined: SKIP LOCKED leaves a receive no choice. */
  lemma BatchIsUnique(candidates: set<int>, a: set<int>, b: set<int>, limit: nat)
    requires IsBatch(candidates, a, limit) && IsBatch(candidates, b, limit)
    ensures a == b
  {
    BatchWithin(candidates, a, b, limit);
    BatchWithin(candidates, b, a, limit);
  }

  lemma BatchWithin(candidates: set<int>, a: set<int>, b: set<int>, limit: nat)
    requires IsBatch(candidates, a, limit) && IsBatch(candidates, b, limit)
    ensures a <= b
  {
    forall i | i in a ensures i in b {
      if i !in b {
        forall j | j in b ensures j in a - {i} {
          assert j < i;
        }
        SubsetSmaller(b, a - {i});
      }
    }
  }

  /** A message no receive holds becomes deliverable again once its lock has expired, and is then in every
      batch that a receive with room for it picks. */
  lemma ExpiredLockIsRedelivered(c: Config, s: State, w: int, batch: set<int>, id: int)
    requires Inv(c, s) && Enabled(c, s, Pick(w, batch))
    requires id in s.sent && id !in s.acked && Visible(s.rows[id], s.receives[w].now)
    requires forall v :: v in s.receives ==> id !in s.receives[v].picked
    ensures id in batch || (|batch| == c.limit && forall i :: i in batch ==> i < id)
  {
    assert id in Candidates(s, w);
  }

  // ---- the table, told from the steps ----

  /** The payloads sent, in order. */
  function Sends(steps: seq<Step>): (ps: seq<string>)
  {
    if steps == [] then [] else
      var before := Sends(steps[..|steps| - 1]);
      match steps[|steps| - 1] case Send(payload) => before + [payload] case _ => before
  }

  /** The messages sent and not acked, under the numbers 1, 2, ... in the order of their sends. */
  function Remaining(steps: seq<Step>): (left: map<int, string>)
  {
    if steps == [] then map[] else
      var earlier := steps[..|steps| - 1];
      match steps[|steps| - 1]
      case Send(payload) => Remaining(earlier)[|Sends(earlier)| + 1 := payload]
      case Ack(id) => Remaining(earlier) - {id}
      case _ => Remaining(earlier)
  }

  function ClockAt(steps: seq<Step>): (t: int)
  {
    if steps == [] then 0 else
      match steps[|steps| - 1] case Tick(to) => to case _ => ClockAt(steps[..|steps| - 1])
  }

  /** The receives begun and not over: the moment of their begin, and what they have picked. */
  function Underway(steps: seq<Step>): (rs: map<int, Receive>)
  {
    if steps == [] then map[] else
      var earlier := steps[..|steps| - 1];
      var rs := Underway(earlier);
      match steps[|steps| - 1]
      case Begin(w) => rs[w := Receive(ClockAt(earlier), {})]
      case Pick(w, batch) => if w in rs then rs[w := Receive(rs[w].now, batch)] else rs
      case Commit(w) => rs - {w}
      case Abort(w) => rs - {w}
      case _ => rs
  }

  /** The batches of the receives that committed, in the order of the commits. */
  function Delivered(steps: seq<Step>): (log: seq<Delivery>)
  {
    if steps == [] then [] else
      var earlier := steps[..|steps| - 1];
      match steps[|steps| - 1]
      case Commit(w) =>
        if w in Underway(earlier)
        then Delivered(earlier) + [Delivery(Underway(earlier)[w].picked, Underway(earlier)[w].now)]
        else Delivered(earlier)
      case _ => Delivered(earlier)
  }

  function LastDelivered(log: seq<Delivery>, id: int): (at: Option<int>)
  {
    if log == [] then None
    else if id in log[|log| - 1].ids then Some(log[|log| - 1].at)
    else LastDelivered(log[..|log| - 1], id)
  }

  /** A row never delivered is not locked, and any other until the end of the window of its last delivery. */
  predicate LockedSince(c: Config, r: Row, last: Option<int>) {
    r.lockedUntil == match last case None => None case Some(at) => Some(at + c.vis)
  }

  ghost predicate Told(c: Config, steps: seq<Step>, s: State) {
    && s.clock == ClockAt(steps) && s.nextId == |Sends(steps)| + 1
    && s.receives == Underway(steps) && s.log == Delivered(steps)
    && RowsTold(steps, s)
    && LocksTold(c, s)
  }

  ghost predicate RowsTold(steps: seq<Step>, s: State) {
    s.rows.Keys == Remaining(steps).Keys && forall id :: id in s.rows ==> s.rows[id].payload == Remaining(steps)[id]
  }

  ghost predicate LocksTold(c: Config, s: State) {
    forall id :: id in s.rows ==> LockedSince(c, s.rows[id], LastDelivered(s.log, id))
  }

  lemma StepLocks(c: Config, s: State, step: Step)
    requires Inv(c, s) && LocksTold(c, s) && Enabled(c, s, step)
    ensures LocksTold(c, Apply(c, s, step))
  {
    var s' := Apply(c, s, step);
    match step {
      case Commit(w) => assert s'.log[..|s'.log| - 1] == s.log;
      case Send(payload) =>
        forall k | 0 <= k < |s.log| ensures s.nextId !in s.log[k].ids {
          assert s.nextId in s.log[k].ids ==> s.nextId in s.sent;
        }
        NeverDelivered(s.log, s.nextId);
      case _ =>
    }
  }

  lemma StepTold(c: Config, earlier: seq<Step>, s: State, steps: seq<Step>)
    requires steps != [] && earlier == steps[..|steps| - 1]
    requires Inv(c, s) && Told(c, earlier, s) && Enabled(c, s, steps[|steps| - 1])
    ensures Told(c, steps, Apply(c, s, steps[|steps| - 1]))
  {
    StepLocks(c, s, steps[|steps| - 1]);
  }

  lemma {:induction false} NeverDelivered(log: seq<Delivery>, id: int)
    requires forall k :: 0 <= k < |log| ==> id !in log[k].ids
    ensures LastDelivered(log, id) == None
  {
    if log != [] { NeverDelivered(log[..|log| - 1], id); }
  }

  /** In every run the table, its locks, the receives under way and the deliveries are what the steps make them: nothing
      that was sent is missing, nothing that was acked is there, and every row is locked by its last delivery. */
  lemma {:induction false} TableFollowsTheSteps(c: Config, steps: seq<Step>, s: State)
    requires Reaches(c, steps, s)
    ensures Told(c, steps, s)
  {
    if steps != [] {
      var last := |steps| - 1;
      var before: State :| Reaches(c, steps[..last], before) && Enabled(c, before, steps[last])
                           && s == Apply(c, before, steps[last]);
      TableFollowsTheSteps(c, steps[..last], before);
      RunKeeps(c, steps[..last], before);
      StepTold(c, steps[..last], before, steps);
    }
  }

  // ---- a receive can always go on ----

  lemma {:induction false} BatchExists(candidates: set<int>, limit: nat) returns (batch: set<int>)
    ensures IsBatch(candidates, batch, limit)
    decreases limit
  {
    if limit == 0 {
      batch := {};
    } else {
      var smaller := BatchExists(candidates, limit - 1);
      if candidates - smaller == {} {
        batch := smaller;
        NothingLeft(candidates, smaller);
      } else {
        var least := Least(candidates - smaller);
        batch := smaller + {least};
        BatchGrows(candidates, smaller, least, limit);
      }
    }
  }

  lemma NothingLeft(candidates: set<int>, batch: set<int>)
    requires batch <= candidates && candidates - batch == {}
    ensures batch == candidates
  {
    assert forall x :: x in candidates && x !in batch ==> x in candidates - batch;
  }

  lemma BatchGrows(candidates: set<int>, smaller: set<int>, least: int, limit: nat)
    requires limit > 0 && IsBatch(candidates, smaller, limit - 1)
    requires least in candidates - smaller && forall j :: j in candidates - smaller ==> least <= j
    ensures IsBatch(candidates, smaller + {least}, limit)
  {
    var batch := smaller + {least};
    forall i, j | i in batch && j in candidates && j !in batch ensures i < j {
      assert j in candidates - smaller && j != least;
    }
  }

  lemma {:induction false} Least(ids: set<int>) returns (least: int)
    requires ids != {}
    ensures least in ids && forall j :: j in ids ==> least <= j
    decreases |ids|
  {
    var i := Element(ids);
    if ids == {i} {
      least := i;
    } else {
      var rest := ids - {i};
      assert ids == rest + {i};
      var j := Least(rest);
      least := if i < j then i else j;
    }
  }

  /** Runs begin with the empty table and go on with every enabled step. */
  lemma RunsGoOn(c: Config, steps: seq<Step>, s: State, step: Step)
    requires Reaches(c, steps, s) && Enabled(c, s, step)
    ensures Reaches(c, [], State(0, 1, map[], map[], map[], {}, []))
    ensures Reaches(c, steps + [step], Apply(c, s, step))
  {
    assert (steps + [step])[..|steps + [step]| - 1] == steps;
  }

  /** No state of any run is stuck: a receive that is not under way can begin, pick a batch and commit it. */
  lemma ReceivesGoOn(c: Config, s: State, w: int) returns (batch: set<int>)
    requires w !in s.receives
    ensures Enabled(c, s, Begin(w)) && Enabled(c, Apply(c, s, Begin(w)), Pick(w, batch))
    ensures var picked := Apply(c, Apply(c, s, Begin(w)), Pick(w, batch));
            && Enabled(c, picked, Commit(w))
            && Apply(c, picked, Commit(w)).log == s.log + [Delivery(batch, s.clock)]
  {
    batch := BatchExists(Candidates(Apply(c, s, Begin(w)), w), c.limit);
  }
}
