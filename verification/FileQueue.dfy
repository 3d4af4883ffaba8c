/** packages/fs/src/filequeue.ts: message files and lock files in one folder. A receive is one step. */
module FileQueue {
  import opened Common

  /** A file's birth time in milliseconds and its content. */
  datatype File = File(birth: int, content: string)

  /** The folder: `<uid>.json` files, and the birth times of their `.json.lock` files. */
  datatype Folder = Folder(files: map<string, File>, locks: map<string, int>)

  predicate Expired(locks: map<string, int>, uid: string, now: int, expire: nat) {
    uid in locks && locks[uid] < now - expire
  }

  /** Messages a receive at `now` may take. */
  function Free(f: Folder, now: int, expire: nat): (uids: set<string>) {
    set uid | uid in f.files && (uid !in f.locks || Expired(f.locks, uid, now, expire))
  }

  /** The lock files left once the scan has unlinked the expired ones. */
  function Swept(f: Folder, now: int, expire: nat): (locks: map<string, int>) {
    map uid | uid in f.locks && !(uid in f.files && Expired(f.locks, uid, now, expire)) :: f.locks[uid]
  }

  predicate Oldest(f: Folder, uids: set<string>, uid: string)
    requires uids <= f.files.Keys
  {
    uid in uids && forall u :: u in uids ==> f.files[uid].birth <= f.files[u].birth
  }

  function Receive(f: Folder, taken: Option<string>, now: int, expire: nat): (r: Folder) {
    var locks := Swept(f, now, expire);
    f.(locks := if taken.Some? then locks[taken.value := now] else locks)
  }

  function Send(f: Folder, uid: string, content: string, now: int): (r: Folder) {
    f.(files := f.files[uid := File(now, content)])
  }

  /** Deleting a message that is not there does nothing, not even to a lock file. */
  function Delete(f: Folder, uid: string): (r: Folder) {
    if uid in f.files then Folder(f.files - {uid}, f.locks - {uid}) else f
  }

  class Queue {
    const expire: nat
    var files: map<string, File>
    var locks: map<string, int>

    ghost function State(): (r: Folder)
      reads this
    {
      Folder(files, locks)
    }

    constructor (expire: nat)
      ensures this.expire == expire && State() == Folder(map[], map[])
    {
      this.expire, files, locks := expire, map[], map[];
    }

    /** `uids` are the random ids drawn, of which the last is the first not in use. */
    method SendMessage(uids: seq<string>, content: string, now: int)
      requires uids != [] && uids[|uids| - 1] !in files
      requires forall i :: 0 <= i < |uids| - 1 ==> uids[i] in files
      modifies this
      ensures State() == Send(old(State()), uids[|uids| - 1], content, now)
      ensures locks == old(locks) && files == old(files)[uids[|uids| - 1] := File(now, content)]
    {
      var i := 0;
      while uids[i] in files
        invariant 0 <= i < |uids|
        decreases |uids| - i
      {
        i := i + 1;
      }
      files := files[uids[i] := File(now, content)];
    }

    /** `listing` is the order in which the folder lists the message files. */
    method ReceiveMessage(listing: seq<string>, now: int) returns (taken: Option<string>)
      requires forall uid :: uid in listing <==> uid in files
      modifies this
      ensures State() == Receive(old(State()), taken, now, expire)
      ensures files == old(files)
      ensures forall u :: u in locks <==>
        taken == Some(u) || (u in old(locks) && !(u in files && old(locks)[u] < now - expire))
      ensures forall u :: u in locks ==> locks[u] == if taken == Some(u) then now else old(locks)[u]
      ensures taken.None? <==> Free(old(State()), now, expire) == {}
      ensures taken.Some? ==> Oldest(old(State()), Free(old(State()), now, expire), taken.value)
    {
      ghost var before := State();
      taken := None;
      for i := 0 to |listing|
        invariant files == before.files
        invariant locks == map uid | uid in before.locks
                    && !(uid in listing[..i] && Expired(before.locks, uid, now, expire)) :: before.locks[uid]
        invariant taken.Some? ==> taken.value in Free(before, now, expire)
        invariant forall u :: u in listing[..i] && u in Free(before, now, expire)
                    ==> taken.Some? && before.files[taken.value].birth <= before.files[u].birth
      {
        var uid := listing[i];
        assert listing[..i + 1] == listing[..i] + [uid];
        if uid in locks && locks[uid] < now - expire {
          locks := map u | u in locks && u != uid :: locks[u];
        }
        assert uid in locks <==> uid !in Free(before, now, expire);
        if uid !in locks && (taken.None? || files[uid].birth < files[taken.value].birth) {
          taken := Some(uid);
        }
      }
      assert listing[..|listing|] == listing;
      assert locks == Swept(before, now, expire);
      if taken.Some? {
        locks := locks[taken.value := now];
      } else {
        assert forall u :: u !in Free(before, now, expire);
      }
    }

    method DeleteMessage(receipt: string)
      modifies this
      ensures State() == Delete(old(State()), receipt)
      ensures files == old(files) - {receipt}
      ensures locks == if receipt in old(files) then old(locks) - {receipt} else old(locks)
    {
      if receipt in files {
        files := files - {receipt};
        if receipt in locks {
          locks := locks - {receipt};
        }
      }
    }
  }

  // ---- whole runs ----

  datatype Event =
    | Sent(uid: string, content: string)
    | Delivered(uid: string, at: int)
    | Acked(uid: string)

  datatype Step =
    | DoSend(uid: string, content: string)
    | DoReceive(uid: string)
    | DoIdle
    | DoAck(uid: string)
    | Tick(to: int)

  /** `log` is history, oldest first. */
  datatype Run = Run(clock: int, folder: Folder, log: seq<Event>)

  predicate Enabled(r: Run, s: Step, expire: nat) {
    match s
    case DoSend(uid, _) => uid !in r.folder.files
    case DoReceive(uid) => Oldest(r.folder, Free(r.folder, r.clock, expire), uid)
    case DoIdle => Free(r.folder, r.clock, expire) == {}
    case DoAck(_) => true
    case Tick(to) => to >= r.clock
  }

  function Apply(r: Run, s: Step, expire: nat): (result: Run)
    requires Enabled(r, s, expire)
  {
    match s
    case DoSend(uid, content) => Run(r.clock, Send(r.folder, uid, content, r.clock), r.log + [Sent(uid, content)])
    case DoReceive(uid) =>
      Run(r.clock, Receive(r.folder, Some(uid), r.clock, expire), r.log + [Delivered(uid, r.clock)])
    case DoIdle => r.(folder := Receive(r.folder, None, r.clock, expire))
    case DoAck(uid) =>
      Run(r.clock, Delete(r.folder, uid), if uid in r.folder.files then r.log + [Acked(uid)] else r.log)
    case Tick(to) => r.(clock := to)
  }

  ghost predicate Reaches(steps: seq<Step>, r: Run, expire: nat)
  {
    if steps == [] then r == Run(0, Folder(map[], map[]), []) else
      var last := |steps| - 1;
      exists before: Run ::
        Reaches(steps[..last], before, expire) && Enabled(before, steps[last], expire)
        && r == Apply(before, steps[last], expire)
  }

  /** The messages sent and not acked since, by replaying the log. */
  function Pending(log: seq<Event>): (m: map<string, string>)
  {
    if log == [] then map[] else
      var before := Pending(log[..|log| - 1]);
      match log[|log| - 1]
      case Sent(uid, content) => before[uid := content]
      case Acked(uid) => before - {uid}
      case Delivered(_, _) => before
  }

  /** The last delivery of the message that now has this uid, by replaying the log. */
  function LastDelivery(log: seq<Event>, uid: string): (at: Option<int>)
  {
    if log == [] then None else
      var before := LastDelivery(log[..|log| - 1], uid);
      var e := log[|log| - 1];
      if e.uid != uid then before else
        match e
        case Delivered(_, at) => Some(at)
        case Acked(_) => None
        case Sent(_, _) => None
  }

  /** Every delivery of a message is more than `expire` after the one before it. */
  predicate WellSpaced(log: seq<Event>, expire: nat)
  {
    if log == [] then true else
      var before := log[..|log| - 1];
      WellSpaced(before, expire) && SpacedFrom(before, log[|log| - 1], expire)
  }

  /** A delivery is of a message that is still pending, and later than the last one plus `expire`. */
  predicate SpacedFrom(before: seq<Event>, e: Event, expire: nat) {
    match e
    case Delivered(uid, at) =>
      var last := LastDelivery(before, uid);
      uid in Pending(before) && (last.None? || at > last.value + expire)
    case _ => true
  }

  ghost predicate Inv(r: Run, expire: nat) {
    && r.folder.locks.Keys <= r.folder.files.Keys
    && (forall uid :: uid in r.folder.locks ==> r.folder.locks[uid] <= r.clock)
    && r.folder.files.Keys == Pending(r.log).Keys
    && (forall uid :: uid in r.folder.files ==> r.folder.files[uid].content == Pending(r.log)[uid])
    && (forall uid :: LastDelivery(r.log, uid).Some? ==>
          (uid in r.folder.locks && r.folder.locks[uid] == LastDelivery(r.log, uid).value)
          || (uid !in r.folder.locks && LastDelivery(r.log, uid).value < r.clock - expire))
    && (forall uid :: uid in r.folder.locks ==> LastDelivery(r.log, uid) == Some(r.folder.locks[uid]))
    && WellSpaced(r.log, expire)
  }

  lemma LogSnoc(log: seq<Event>, e: Event)
    ensures (log + [e])[..|log + [e]| - 1] == log && (log + [e])[|log + [e]| - 1] == e
  {
  }

  lemma ReceiveKeeps(r: Run, uid: string, expire: nat)
    requires Inv(r, expire) && Enabled(r, DoReceive(uid), expire)
    ensures Inv(Apply(r, DoReceive(uid), expire), expire)
  {
    LogSnoc(r.log, Delivered(uid, r.clock));
  }

  lemma StepKeeps(r: Run, s: Step, expire: nat)
    requires Inv(r, expire) && Enabled(r, s, expire)
    ensures Inv(Apply(r, s, expire), expire)
  {
    match s {
      case DoSend(uid, content) => LogSnoc(r.log, Sent(uid, content));
      case DoReceive(uid) => ReceiveKeeps(r, uid, expire);
      case DoAck(uid) => LogSnoc(r.log, Acked(uid));
      case _ =>
    }
  }

  /** In every run with a clock that does not go back: lock files belong to existing messages, the files
      are exactly the messages sent and not acked, with their contents, and two deliveries of one
      message are more than `expire` milliseconds apart. */
  lemma {:induction false} QueueIsSafe(steps: seq<Step>, r: Run, expire: nat)
    requires Reaches(steps, r, expire)
    ensures Inv(r, expire)
    ensures r.folder.locks.Keys <= r.folder.files.Keys == Pending(r.log).Keys
    ensures forall uid :: uid in r.folder.files ==> r.folder.files[uid].content == Pending(r.log)[uid]
    ensures WellSpaced(r.log, expire)
  {
    if steps != [] {
      var last := |steps| - 1;
      var before: Run :| Reaches(steps[..last], before, expire) && Enabled(before, steps[last], expire)
                         && r == Apply(before, steps[last], expire);
      QueueIsSafe(steps[..last], before, expire);
      StepKeeps(before, steps[last], expire);
    }
  }

  /** A message that was delivered and not acked can be delivered again once its lock has expired. */
  lemma ExpiredIsFree(r: Run, uid: string, expire: nat)
    requires Inv(r, expire) && uid in Pending(r.log)
    ensures uid in Free(r.folder, r.clock, expire)
        <==> (LastDelivery(r.log, uid).None? || LastDelivery(r.log, uid).value < r.clock - expire)
  {
  }

  // ---- the folder, told from the steps ----

  function ClockAt(steps: seq<Step>): (t: int)
  {
    if steps == [] then 0 else
      match steps[|steps| - 1] case Tick(to) => to case _ => ClockAt(steps[..|steps| - 1])
  }

  /** The messages sent and not acked since, with their contents and the moments they were sent. */
  function Remaining(steps: seq<Step>): (m: map<string, File>)
  {
    if steps == [] then map[] else
      var earlier := steps[..|steps| - 1];
      match steps[|steps| - 1]
      case DoSend(uid, content) => Remaining(earlier)[uid := File(ClockAt(earlier), content)]
      case DoAck(uid) => Remaining(earlier) - {uid}
      case _ => Remaining(earlier)
  }

  /** When the message that now has this uid was last received. */
  function LastReceived(steps: seq<Step>, uid: string): (at: Option<int>)
  {
    if steps == [] then None else
      var earlier := steps[..|steps| - 1];
      match steps[|steps| - 1]
      case DoSend(u, _) => if u == uid then None else LastReceived(earlier, uid)
      case DoAck(u) => if u == uid then None else LastReceived(earlier, uid)
      case DoReceive(u) => if u == uid then Some(ClockAt(earlier)) else LastReceived(earlier, uid)
      case _ => LastReceived(earlier, uid)
  }

  ghost predicate Told(steps: seq<Step>, r: Run) {
    && r.clock == ClockAt(steps) && r.folder.files == Remaining(steps)
    && forall uid :: uid in r.folder.files ==> LastDelivery(r.log, uid) == LastReceived(steps, uid)
  }

  lemma StepTold(earlier: seq<Step>, r: Run, steps: seq<Step>, expire: nat)
    requires steps != [] && earlier == steps[..|steps| - 1]
    requires Told(earlier, r) && Enabled(r, steps[|steps| - 1], expire)
    ensures Told(steps, Apply(r, steps[|steps| - 1], expire))
  {
    match steps[|steps| - 1] {
      case DoSend(uid, content) => LogSnoc(r.log, Sent(uid, content));
      case DoReceive(uid) => LogSnoc(r.log, Delivered(uid, r.clock));
      case DoAck(uid) => LogSnoc(r.log, Acked(uid));
      case _ =>
    }
  }

  /** In every run the message files are exactly those of the messages sent and not acked, whole and with the moment of
      their sending, and a message can be received exactly when it never was or its last receive is more than `expire`
      ago. */
  lemma {:induction false} FolderFollowsTheSteps(steps: seq<Step>, r: Run, expire: nat)
    requires Reaches(steps, r, expire)
    ensures Told(steps, r)
    ensures r.folder.files == Remaining(steps)
    ensures forall uid :: uid in Free(r.folder, r.clock, expire) <==>
              (uid in Remaining(steps)
               && (LastReceived(steps, uid).None? || LastReceived(steps, uid).value < ClockAt(steps) - expire))
  {
    if steps != [] {
      var last := |steps| - 1;
      var before: Run :| Reaches(steps[..last], before, expire) && Enabled(before, steps[last], expire)
                         && r == Apply(before, steps[last], expire);
      FolderFollowsTheSteps(steps[..last], before, expire);
      StepTold(steps[..last], before, steps, expire);
    }
    QueueIsSafe(steps, r, expire);
    forall uid | uid in r.folder.files
      ensures uid in Free(r.folder, r.clock, expire) <==>
              (LastReceived(steps, uid).None? || LastReceived(steps, uid).value < ClockAt(steps) - expire)
    {
      ExpiredIsFree(r, uid, expire);
    }
  }

  /** Runs begin with the empty folder and go on with every enabled step. */
  lemma RunsGoOn(steps: seq<Step>, r: Run, expire: nat, step: Step)
    requires Reaches(steps, r, expire) && Enabled(r, step, expire)
    ensures Reaches([], Run(0, Folder(map[], map[]), []), expire)
    ensures Reaches(steps + [step], Apply(r, step, expire), expire)
  {
    assert (steps + [step])[..|steps + [step]| - 1] == steps;
  }

  lemma {:induction false} OldestExists(f: Folder, uids: set<string>) returns (uid: string)
    requires uids <= f.files.Keys && uids != {}
    ensures Oldest(f, uids, uid)
    decreases |uids|
  {
    var u := Element(uids);
    if uids == {u} {
      uid := u;
    } else {
      var rest := uids - {u};
      assert uids == rest + {u};
      var v := OldestExists(f, rest);
      uid := if f.files[u].birth <= f.files[v].birth then u else v;
    }
  }

  /** Whenever a message is free, one can be received. */
  lemma ReceivesGoOn(r: Run, expire: nat) returns (uid: string)
    requires Free(r.folder, r.clock, expire) != {}
    ensures Enabled(r, DoReceive(uid), expire)
  {
    uid := OldestExists(r.folder, Free(r.folder, r.clock, expire));
  }

  lemma {:induction false} RunPrefix(steps: seq<Step>, r: Run, expire: nat, j: nat) returns (at: Run)
    requires Reaches(steps, r, expire) && j < |steps|
    ensures Reaches(steps[..j], at, expire) && Enabled(at, steps[j], expire)
    decreases |steps|
  {
    var last := |steps| - 1;
    var before: Run :| Reaches(steps[..last], before, expire) && Enabled(before, steps[last], expire)
                       && r == Apply(before, steps[last], expire);
    if j == last {
      at := before;
    } else {
      at := RunPrefix(steps[..last], before, expire, j);
      assert steps[..last][..j] == steps[..j];
    }
  }

  /** No send or ack of the message in the steps from i to j. */
  predicate SameMessage(steps: seq<Step>, uid: string, i: nat, j: nat)
    requires i <= j <= |steps|
  {
    forall k :: i <= k < j ==> !(steps[k].DoSend? && steps[k].uid == uid) && !(steps[k].DoAck? && steps[k].uid == uid)
  }

  lemma {:induction false} ReceivedSince(steps: seq<Step>, uid: string, i: nat)
    requires i < |steps| && steps[i] == DoReceive(uid) && SameMessage(steps, uid, i, |steps|)
    requires forall k, l :: 0 <= k <= l <= |steps| ==> ClockAt(steps[..k]) <= ClockAt(steps[..l])
    ensures LastReceived(steps, uid).Some? && LastReceived(steps, uid).value >= ClockAt(steps[..i])
    decreases |steps|
  {
    var last := |steps| - 1;
    if i < last {
      var before := steps[..last];
      assert forall k :: 0 <= k < last ==> before[k] == steps[k];
      assert forall k :: 0 <= k <= last ==> before[..k] == steps[..k];
      ReceivedSince(before, uid, i);
    }
  }

  lemma {:induction false} ClockGrows(steps: seq<Step>, r: Run, expire: nat)
    requires Reaches(steps, r, expire)
    ensures forall k, l :: 0 <= k <= l <= |steps| ==> ClockAt(steps[..k]) <= ClockAt(steps[..l])
  {
    if steps != [] {
      var last := |steps| - 1;
      var before: Run :| Reaches(steps[..last], before, expire) && Enabled(before, steps[last], expire)
                         && r == Apply(before, steps[last], expire);
      ClockGrows(steps[..last], before, expire);
      FolderFollowsTheSteps(steps[..last], before, expire);
      assert forall k :: 0 <= k <= last ==> steps[..last][..k] == steps[..k];
      assert steps[..|steps|] == steps;
      assert ClockAt(steps[..last]) <= ClockAt(steps);
    }
  }

  /** Two receives of one message are more than `expire` apart, in every run. */
  lemma ReceivesAreSpaced(steps: seq<Step>, r: Run, expire: nat, uid: string, i: nat, j: nat)
    requires Reaches(steps, r, expire) && i < j < |steps|
    requires steps[i] == DoReceive(uid) && steps[j] == DoReceive(uid) && SameMessage(steps, uid, i, j)
    ensures ClockAt(steps[..j]) > ClockAt(steps[..i]) + expire
  {
    var upto := steps[..j];
    var at := RunPrefix(steps, r, expire, j);
    ClockGrows(upto, at, expire);
    FolderFollowsTheSteps(upto, at, expire);
    assert upto[..i] == steps[..i] && forall k :: 0 <= k < j ==> upto[k] == steps[k];
    ReceivedSince(upto, uid, i);
  }
}
