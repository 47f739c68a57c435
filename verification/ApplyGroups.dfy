/** The apply rings of src/clapply.c together: N apply threads, each with its own first-in
    first-out ring (module ApplyRing shows that each ring is one), records sent to the ring of
    their (collection, key), and the reference-counted groups whose last holder sends the
    acknowledgement. */
module ApplyGroups {
  import opened Bytes
  import opened Fnv
  import opened Options

  datatype Job = Job(col: seq<byte>, key: seq<byte>, body: seq<byte>, grp: Option<nat>)

  /** What a thread - an apply thread, or the receiver - is in the middle of. */
  datatype Thread =
    | Free
    | Pushing(job: Job)      // the receiver: the group counted, the record not yet in its ring
    | Applying(job: Job)     // the record at the front of its ring
    | Releasing(job: Job)    // out of the ring, its group not yet released
    | Acking(g: nat)         // brought the count to zero
    | Freeing(g: nat)

  datatype Group = Group(remaining: int, closed: bool, acked: nat, freed: bool)

  /** `arrived`: the records pushed, in order; `applied`: the records applied, in order. */
  datatype Apply = Apply(queues: seq<seq<Job>>, threads: seq<Thread>, receiver: Thread, groups: map<nat, Group>,
                         arrived: seq<Job>, applied: seq<Job>)

  /** Which ring a key belongs to: the hash of the collection, a zero byte and the key. */
  function Shard(n: nat, col: seq<byte>, key: seq<byte>): (i: nat)
    ensures n > 0 ==> i < n
  {
    var h := Fold(Fold1(Fold(BASIS, col), 0), key);
    if n > 0 then (h as int) % n else 0
  }

  function RingOf(a: Apply, j: Job): nat { Shard(|a.queues|, j.col, j.key) }

  datatype Action =
    | Open(g: nat) | BeginPush(job: Job) | Store | StopPush | Close(g: nat)
    | Take(i: nat) | Finish(i: nat) | Release(i: nat)
    | AckIt(i: nat) | FreeIt(i: nat) | AckOwn | FreeOwn

  ghost predicate Enabled(a: Apply, act: Action) {
    match act
    case Open(g) => a.receiver == Free && g !in a.groups
    case BeginPush(j) =>                                     // into a group it has open, or none
      a.receiver == Free && (j.grp.Some? ==> j.grp.value in a.groups && !a.groups[j.grp.value].closed)
    case Store => a.receiver.Pushing? && RingOf(a, a.receiver.job) < |a.queues|
    case StopPush => a.receiver.Pushing?                     // gives up; the record never enters a ring
    case Close(g) => a.receiver == Free && g in a.groups && !a.groups[g].closed
    case Take(i) => i < |a.threads| && i < |a.queues| && a.threads[i] == Free && a.queues[i] != []
    case Finish(i) => i < |a.threads| && i < |a.queues| && a.threads[i].Applying? && a.queues[i] != []
    case Release(i) => i < |a.threads| && a.threads[i].Releasing?
    case AckIt(i) => i < |a.threads| && a.threads[i].Acking?
    case FreeIt(i) => i < |a.threads| && a.threads[i].Freeing?
    case AckOwn => a.receiver.Acking?
    case FreeOwn => a.receiver.Freeing?
  }

  /** The group an action reads or writes, if any. */
  function Touched(a: Apply, act: Action): Option<nat> {
    match act
    case BeginPush(j) => j.grp
    case StopPush => if a.receiver.Pushing? then a.receiver.job.grp else None
    case Close(g) => Some(g)
    case Release(i) => if i < |a.threads| && a.threads[i].Releasing? then a.threads[i].job.grp else None
    case AckIt(i) => if i < |a.threads| && a.threads[i].Acking? then Some(a.threads[i].g) else None
    case FreeIt(i) => if i < |a.threads| && a.threads[i].Freeing? then Some(a.threads[i].g) else None
    case AckOwn => if a.receiver.Acking? then Some(a.receiver.g) else None
    case FreeOwn => if a.receiver.Freeing? then Some(a.receiver.g) else None
    case _ => None
  }

  function Add(groups: map<nat, Group>, grp: Option<nat>, n: int): map<nat, Group> {
    if grp.Some? && grp.value in groups
    then groups[grp.value := groups[grp.value].(remaining := groups[grp.value].remaining + n)]
    else groups
  }

  /** What the thread does next: a count of zero makes it the one to acknowledge. */
  function Released(groups: map<nat, Group>, grp: Option<nat>): Thread {
    if grp.Some? && grp.value in groups && groups[grp.value].remaining == 0 then Acking(grp.value) else Free
  }

  function Acked(groups: map<nat, Group>, g: nat): map<nat, Group> {
    if g in groups then groups[g := groups[g].(acked := groups[g].acked + 1)] else groups
  }

  function Freed(groups: map<nat, Group>, g: nat): map<nat, Group> {
    if g in groups then groups[g := groups[g].(freed := true)] else groups
  }

  ghost function Act(a: Apply, act: Action): Apply
    requires Enabled(a, act)
  {
    match act
    case Open(g) => a.(groups := a.groups[g := Group(1, false, 0, false)])
    case BeginPush(j) => a.(groups := Add(a.groups, j.grp, 1), receiver := Pushing(j))
    case Store =>
      var j := a.receiver.job;
      var i := RingOf(a, j);
      a.(queues := a.queues[i := a.queues[i] + [j]], arrived := a.arrived + [j], receiver := Free)
    case StopPush => a.(groups := Add(a.groups, a.receiver.job.grp, -1), receiver := Free)
    case Close(g) =>
      var groups := Add(a.groups, Some(g), -1);
      var closed := groups[g := groups[g].(closed := true)];
      a.(groups := closed, receiver := Released(closed, Some(g)))
    case Take(i) => a.(threads := a.threads[i := Applying(a.queues[i][0])])
    case Finish(i) =>
      a.(queues := a.queues[i := a.queues[i][1..]], applied := a.applied + [a.threads[i].job],
         threads := a.threads[i := Releasing(a.threads[i].job)])
    case Release(i) =>
      var groups := Add(a.groups, a.threads[i].job.grp, -1);
      a.(groups := groups, threads := a.threads[i := Released(groups, a.threads[i].job.grp)])
    case AckIt(i) => a.(groups := Acked(a.groups, a.threads[i].g), threads := a.threads[i := Freeing(a.threads[i].g)])
    case FreeIt(i) => a.(groups := Freed(a.groups, a.threads[i].g), threads := a.threads[i := Free])
    case AckOwn => a.(groups := Acked(a.groups, a.receiver.g), receiver := Freeing(a.receiver.g))
    case FreeOwn => a.(groups := Freed(a.groups, a.receiver.g), receiver := Free)
  }

  ghost predicate IsRun(states: seq<Apply>, run: seq<Action>) {
    && |states| == |run| + 1
    && (exists n: nat :: n > 0 && states[0] == Begun(n))
    && forall i :: 0 <= i < |run| ==> Enabled(states[i], run[i]) && states[i + 1] == Act(states[i], run[i])
  }

  function Begun(n: nat): Apply {
    Apply(seq(n, i => []), seq(n, i => Free), Free, map[], [], [])
  }

  // ---- counting what holds a group ----

  function Has(grp: Option<nat>, g: nat): nat { if grp == Some(g) then 1 else 0 }

  function InQueue(q: seq<Job>, g: nat): nat {
    if q == [] then 0 else Has(q[0].grp, g) + InQueue(q[1..], g)
  }

  function InQueues(qs: seq<seq<Job>>, g: nat): nat {
    if qs == [] then 0 else InQueue(qs[0], g) + InQueues(qs[1..], g)
  }

  function InHand(t: Thread, g: nat): nat {
    match t
    case Pushing(j) => Has(j.grp, g)
    case Releasing(j) => Has(j.grp, g)
    case _ => 0
  }

  function InHands(ts: seq<Thread>, g: nat): nat {
    if ts == [] then 0 else InHand(ts[0], g) + InHands(ts[1..], g)
  }

  /** Records of the group pushed, or being pushed, and not yet released. */
  function Outstanding(a: Apply, g: nat): nat {
    InQueues(a.queues, g) + InHands(a.threads, g) + InHand(a.receiver, g)
  }

  lemma {:induction false} QueueEnds(q: seq<Job>, j: Job, g: nat)
    ensures InQueue(q + [j], g) == InQueue(q, g) + Has(j.grp, g)
  {
    if q != [] {
      QueueEnds(q[1..], j, g);
      assert (q + [j])[1..] == q[1..] + [j];
    }
  }

  lemma {:induction false} OneQueue(qs: seq<seq<Job>>, i: nat, q: seq<Job>, g: nat)
    requires i < |qs|
    ensures InQueues(qs[i := q], g) == InQueues(qs, g) - InQueue(qs[i], g) + InQueue(q, g)
  {
    var qs' := qs[i := q];
    if i > 0 {
      OneQueue(qs[1..], i - 1, q, g);
      assert qs'[1..] == qs[1..][i - 1 := q];
    } else {
      assert qs'[1..] == qs[1..];
    }
  }

  lemma {:induction false} OneHand(ts: seq<Thread>, i: nat, t: Thread, g: nat)
    requires i < |ts|
    ensures InHands(ts[i := t], g) == InHands(ts, g) - InHand(ts[i], g) + InHand(t, g)
  {
    var ts' := ts[i := t];
    if i > 0 {
      OneHand(ts[1..], i - 1, t, g);
      assert ts'[1..] == ts[1..][i - 1 := t];
    } else {
      assert ts'[1..] == ts[1..];
    }
  }

  // ---- who is acknowledging a group ----

  function On(t: Thread, g: nat): nat { if t == Acking(g) || t == Freeing(g) then 1 else 0 }

  function OnThreads(ts: seq<Thread>, g: nat): nat {
    if ts == [] then 0 else On(ts[0], g) + OnThreads(ts[1..], g)
  }

  function Ackers(a: Apply, g: nat): nat { OnThreads(a.threads, g) + On(a.receiver, g) }

  lemma {:induction false} OneOn(ts: seq<Thread>, i: nat, t: Thread, g: nat)
    requires i < |ts|
    ensures OnThreads(ts[i := t], g) == OnThreads(ts, g) - On(ts[i], g) + On(t, g)
    ensures OnThreads(ts, g) >= On(ts[i], g)
  {
    var ts' := ts[i := t];
    if i > 0 {
      OneOn(ts[1..], i - 1, t, g);
      assert ts'[1..] == ts[1..][i - 1 := t];
    } else {
      assert ts'[1..] == ts[1..];
    }
  }

  lemma TwoOn(ts: seq<Thread>, i: nat, j: nat, g: nat)
    requires i < |ts| && j < |ts| && i != j
    ensures OnThreads(ts, g) >= On(ts[i], g) + On(ts[j], g)
  {
    OneOn(ts, i, Free, g);
    OneOn(ts[i := Free], j, Free, g);
  }

  // ---- what every step keeps ----

  ghost predicate GroupOk(a: Apply, g: nat) {
    if g !in a.groups then Outstanding(a, g) == 0 && Ackers(a, g) == 0
    else
      var G := a.groups[g];
      && G.remaining == (if G.closed then 0 else 1) + Outstanding(a, g)
      && Ackers(a, g) == (if G.remaining == 0 && !G.freed then 1 else 0)
      && (G.remaining > 0 ==> G.acked == 0 && !G.freed)
      && G.acked <= 1 && (G.freed ==> G.acked == 1)
  }

  /** How far a thread is with the group it acknowledges; what a worker is on is at its ring's front. */
  ghost predicate ThreadOk(t: Thread, groups: map<nat, Group>, q: seq<Job>) {
    match t
    case Acking(g) => g in groups && groups[g].acked == 0
    case Freeing(g) => g in groups && groups[g].acked == 1
    case Applying(j) => q != [] && q[0] == j
    case Pushing(j) => j.grp.Some? ==> j.grp.value in groups && !groups[j.grp.value].closed
    case _ => true
  }

  ghost predicate Inv(a: Apply) {
    && |a.threads| == |a.queues| > 0
    && (forall i :: 0 <= i < |a.threads| ==> ThreadOk(a.threads[i], a.groups, a.queues[i]) && !a.threads[i].Pushing?)
    && ThreadOk(a.receiver, a.groups, []) && !a.receiver.Releasing? && !a.receiver.Applying?
    && forall g: nat :: GroupOk(a, g)
  }

  /** A thread in the act of releasing or acknowledging: its group is there and not freed. */
  lemma Live(a: Apply, act: Action, g: nat)
    requires Inv(a) && Enabled(a, act) && Touched(a, act) == Some(g)
    ensures g in a.groups && !a.groups[g].freed
  {
    hide ThreadOk;
    assert GroupOk(a, g);
    match act
    case Release(i) => OneHand(a.threads, i, Free, g);
    case AckIt(i) => OneOn(a.threads, i, Free, g);
    case FreeIt(i) => OneOn(a.threads, i, Free, g);
    case _ =>
  }

  /** Nobody else is on the group a thread is acknowledging. */
  lemma Alone(a: Apply, i: nat, j: nat, g: nat)
    requires Inv(a) && i < |a.threads| && On(a.threads[i], g) == 1
    ensures On(a.receiver, g) == 0 && (j < |a.threads| && j != i ==> On(a.threads[j], g) == 0)
  {
    hide ThreadOk;
    assert GroupOk(a, g);
    OneOn(a.threads, i, Free, g);
    if j < |a.threads| && j != i { TwoOn(a.threads, i, j, g); }
  }

  lemma ReceiverAlone(a: Apply, j: nat, g: nat)
    requires Inv(a) && j < |a.threads| && On(a.receiver, g) == 1
    ensures On(a.threads[j], g) == 0
  {
    hide ThreadOk;
    assert GroupOk(a, g);
    OneOn(a.threads, j, Free, g);
  }

  lemma PushKeeps(a: Apply, act: Action, g: nat)
    requires Inv(a) && Enabled(a, act) && (act.Open? || act.BeginPush? || act.StopPush?)
    ensures GroupOk(Act(a, act), g)
  {
    assert GroupOk(a, g);
  }

  lemma StoreKeeps(a: Apply, g: nat)
    requires Inv(a) && Enabled(a, Store)
    ensures GroupOk(Act(a, Store), g)
  {
    hide ThreadOk;
    hide Shard;
    assert GroupOk(a, g);
    var j := a.receiver.job;
    var i := RingOf(a, j);
    OneQueue(a.queues, i, a.queues[i] + [j], g);
    QueueEnds(a.queues[i], j, g);
  }

  lemma CloseKeeps(a: Apply, g': nat, g: nat)
    requires Inv(a) && Enabled(a, Close(g'))
    ensures GroupOk(Act(a, Close(g')), g)
  {
    hide ThreadOk;
    assert GroupOk(a, g);
    assert GroupOk(a, g');
  }

  lemma TakeKeeps(a: Apply, i: nat, g: nat)
    requires Inv(a) && Enabled(a, Take(i))
    ensures GroupOk(Act(a, Take(i)), g)
  {
    hide ThreadOk;
    assert GroupOk(a, g);
    var t := Applying(a.queues[i][0]);
    OneHand(a.threads, i, t, g);
    OneOn(a.threads, i, t, g);
  }

  lemma FinishKeeps(a: Apply, i: nat, g: nat)
    requires Inv(a) && Enabled(a, Finish(i))
    ensures GroupOk(Act(a, Finish(i)), g)
  {
    assert GroupOk(a, g);
    assert ThreadOk(a.threads[i], a.groups, a.queues[i]);
    OneQueue(a.queues, i, a.queues[i][1..], g);
    OneHand(a.threads, i, Releasing(a.threads[i].job), g);
    OneOn(a.threads, i, Releasing(a.threads[i].job), g);
  }

  lemma ReleaseKeeps(a: Apply, i: nat, g: nat)
    requires Inv(a) && Enabled(a, Release(i))
    ensures GroupOk(Act(a, Release(i)), g)
  {
    hide ThreadOk;
    assert GroupOk(a, g);
    var t := Act(a, Release(i)).threads[i];
    OneHand(a.threads, i, t, g);
    OneOn(a.threads, i, t, g);
  }

  lemma AckKeeps(a: Apply, act: Action, i: nat, g: nat)
    requires Inv(a) && Enabled(a, act) && (act == AckIt(i) || act == FreeIt(i))
    ensures GroupOk(Act(a, act), g)
  {
    assert GroupOk(a, g);
    assert ThreadOk(a.threads[i], a.groups, a.queues[i]);
    OneHand(a.threads, i, Act(a, act).threads[i], g);
    OneOn(a.threads, i, Act(a, act).threads[i], g);
  }

  lemma OwnAckKeeps(a: Apply, act: Action, g: nat)
    requires Inv(a) && Enabled(a, act) && (act.AckOwn? || act.FreeOwn?)
    ensures GroupOk(Act(a, act), g)
  {
    assert GroupOk(a, g);
  }

  /** The step's effect on one group: held, counted and acknowledged as it should be. */
  lemma GroupKeeps(a: Apply, act: Action, g: nat)
    requires Inv(a) && Enabled(a, act)
    ensures GroupOk(Act(a, act), g)
  {
    hide GroupOk;
    hide Act;
    hide Inv;
    match act
    case Store => StoreKeeps(a, g);
    case Close(g') => CloseKeeps(a, g', g);
    case Take(i) => TakeKeeps(a, i, g);
    case Finish(i) => FinishKeeps(a, i, g);
    case Release(i) => ReleaseKeeps(a, i, g);
    case AckIt(i) => AckKeeps(a, act, i, g);
    case FreeIt(i) => AckKeeps(a, act, i, g);
    case AckOwn => OwnAckKeeps(a, act, g);
    case FreeOwn => OwnAckKeeps(a, act, g);
    case _ => PushKeeps(a, act, g);
  }

  /** A thread's own record of how far it is stays right, whichever thread moves. */
  lemma ThreadKeeps(a: Apply, act: Action, j: nat)
    requires Inv(a) && Enabled(a, act) && j < |a.threads|
    ensures var b := Act(a, act);
      |b.threads| == |a.threads| && |b.queues| == |a.queues|
      && ThreadOk(b.threads[j], b.groups, b.queues[j]) && !b.threads[j].Pushing?
  {
    hide GroupOk;
    hide Shard;
    assert ThreadOk(a.threads[j], a.groups, a.queues[j]);
    match act
    case AckIt(i) => assert ThreadOk(a.threads[i], a.groups, a.queues[i]); Alone(a, i, j, a.threads[i].g);
    case FreeIt(i) => Alone(a, i, j, a.threads[i].g);
    case AckOwn => ReceiverAlone(a, j, a.receiver.g);
    case FreeOwn => ReceiverAlone(a, j, a.receiver.g);
    case Release(i) => ReleasedIsNew(a, a.threads[i].job.grp);
    case _ =>
  }

  /** Whoever brings the count to zero finds the group not yet acknowledged. */
  lemma ReleasedIsNew(a: Apply, grp: Option<nat>)
    requires Inv(a)
    ensures grp.Some? && grp.value in a.groups && a.groups[grp.value].remaining == 1
      ==> a.groups[grp.value].acked == 0
  {
    if grp.Some? && grp.value in a.groups { assert GroupOk(a, grp.value); }
  }

  lemma ReceiverKeeps(a: Apply, act: Action)
    requires Inv(a) && Enabled(a, act)
    ensures var b := Act(a, act);
      ThreadOk(b.receiver, b.groups, []) && !b.receiver.Releasing? && !b.receiver.Applying?
  {
    hide GroupOk;
    hide Shard;
    match act
    case Close(g) => ReleasedIsNew(a, Some(g));
    case AckIt(i) => Alone(a, i, i, a.threads[i].g);
    case FreeIt(i) => Alone(a, i, i, a.threads[i].g);
    case _ =>
  }

  lemma ActKeeps(a: Apply, act: Action)
    requires Inv(a) && Enabled(a, act)
    ensures Inv(Act(a, act))
  {
    hide GroupOk;
    hide ThreadOk;
    hide Act;
    ReceiverKeeps(a, act);
    forall j: nat | j < |a.threads|
      ensures var b := Act(a, act);
        |b.threads| == |a.threads| && |b.queues| == |a.queues|
        && ThreadOk(b.threads[j], b.groups, b.queues[j]) && !b.threads[j].Pushing?
    { ThreadKeeps(a, act, j); }
    assert 0 < |a.threads|;
    ThreadKeeps(a, act, 0);
    forall g: nat ensures GroupOk(Act(a, act), g) { GroupKeeps(a, act, g); }
  }

  lemma {:induction false} NothingHeld(qs: seq<seq<Job>>, ts: seq<Thread>, g: nat)
    requires forall i :: 0 <= i < |qs| ==> qs[i] == []
    requires forall i :: 0 <= i < |ts| ==> ts[i] == Free
    ensures InQueues(qs, g) == 0 && InHands(ts, g) == 0 && OnThreads(ts, g) == 0
    decreases |qs| + |ts|
  {
    if qs != [] { NothingHeld(qs[1..], ts, g); }
    if ts != [] { NothingHeld(qs, ts[1..], g); }
  }

  lemma {:induction false} RunKeeps(states: seq<Apply>, run: seq<Action>, k: nat)
    requires IsRun(states, run) && k <= |run|
    ensures Inv(states[k])
  {
    hide GroupOk;
    hide ThreadOk;
    hide Act;
    if k == 0 {
      BegunOk(states[0]);
    } else {
      RunKeeps(states, run, k - 1);
      ActKeeps(states[k - 1], run[k - 1]);
    }
  }

  lemma BegunOk(a: Apply)
    requires exists n: nat :: n > 0 && a == Begun(n)
    ensures Inv(a)
  {
    forall g: nat ensures GroupOk(a, g) { NothingHeld(a.queues, a.threads, g); }
  }

  // ---- results about groups ----

  /** In every run, a group is acknowledged at most once, and then only after it was closed and
      every record pushed with it was released; and once closed with nothing outstanding it has
      been acknowledged or exactly one thread is on its way to do it. */
  lemma AckedOnceAfterAll(states: seq<Apply>, run: seq<Action>, k: nat, g: nat)
    requires IsRun(states, run) && k <= |run| && g in states[k].groups
    ensures var G := states[k].groups[g];
      && G.acked <= 1
      && (G.acked == 1 ==> G.closed && Outstanding(states[k], g) == 0)
      && (G.closed && Outstanding(states[k], g) == 0 && G.acked == 0 ==> Ackers(states[k], g) == 1)
  {
    hide Outstanding;
    hide Ackers;
    RunKeeps(states, run, k);
    assert GroupOk(states[k], g);
  }

  /** In every run no step touches a group that has been freed, and freeing happens once. */
  lemma NeverTouchedAfterFree(states: seq<Apply>, run: seq<Action>, k: nat)
    requires IsRun(states, run) && k < |run|
    ensures var t := Touched(states[k], run[k]);
      t.Some? ==> t.value in states[k].groups && !states[k].groups[t.value].freed
  {
    RunKeeps(states, run, k);
    var t := Touched(states[k], run[k]);
    if t.Some? { Live(states[k], run[k], t.value); }
  }

  // ---- per-key order ----

  predicate Named(j: Job, col: seq<byte>, key: seq<byte>) { j.col == col && j.key == key }

  /** The records of one (collection, key), in order. */
  function Of(js: seq<Job>, col: seq<byte>, key: seq<byte>): seq<Job> {
    if js == [] then []
    else if Named(js[0], col, key) then [js[0]] + Of(js[1..], col, key)
    else Of(js[1..], col, key)
  }

  lemma {:induction false} OfConcat(a: seq<Job>, b: seq<Job>, col: seq<byte>, key: seq<byte>)
    ensures Of(a + b, col, key) == Of(a, col, key) + Of(b, col, key)
  {
    hide Named;
    if a == [] {
      assert a + b == b;
    } else {
      OfConcat(a[1..], b, col, key);
      assert (a + b)[1..] == a[1..] + b;
      assert (a + b)[0] == a[0];
    }
  }

  /** What was applied of a key, then what waits in its ring, is what arrived of it. */
  ghost predicate Ordered(a: Apply, col: seq<byte>, key: seq<byte>) {
    && |a.queues| > 0
    && Of(a.applied, col, key) + Of(a.queues[Shard(|a.queues|, col, key)], col, key) == Of(a.arrived, col, key)
  }

  ghost predicate Sorted(a: Apply) {
    forall i, k :: 0 <= i < |a.queues| && 0 <= k < |a.queues[i]| ==> RingOf(a, a.queues[i][k]) == i
  }

  lemma StoreOrders(a: Apply, col: seq<byte>, key: seq<byte>)
    requires Enabled(a, Store) && Ordered(a, col, key)
    ensures Ordered(Act(a, Store), col, key)
  {
    hide Shard;
    var j := a.receiver.job;
    var s := Shard(|a.queues|, col, key);
    OfConcat(a.arrived, [j], col, key);
    if RingOf(a, j) == s {
      hide Of;
      OfConcat(a.queues[s], [j], col, key);
      assert Of(a.applied, col, key) + (Of(a.queues[s], col, key) + Of([j], col, key))
          == (Of(a.applied, col, key) + Of(a.queues[s], col, key)) + Of([j], col, key);
    } else {
      assert !Named(j, col, key);
    }
  }

  lemma FinishOrders(a: Apply, i: nat, col: seq<byte>, key: seq<byte>)
    requires Enabled(a, Finish(i)) && Sorted(a) && Ordered(a, col, key) && a.threads[i].job == a.queues[i][0]
    ensures Ordered(Act(a, Finish(i)), col, key)
  {
    hide Shard;
    var j := a.queues[i][0];
    var s := Shard(|a.queues|, col, key);
    OfConcat(a.applied, [j], col, key);
    assert RingOf(a, j) == i;
    if i == s {
      assert Of(a.queues[i], col, key) == Of([j], col, key) + Of(a.queues[i][1..], col, key);
    } else {
      assert Of([j], col, key) == [];
    }
  }

  lemma SortedKeeps(a: Apply, act: Action)
    requires Enabled(a, act) && Sorted(a)
    ensures Sorted(Act(a, act))
  {
    hide Shard;
  }

  lemma {:induction false} OrderKept(states: seq<Apply>, run: seq<Action>, k: nat, col: seq<byte>, key: seq<byte>)
    requires IsRun(states, run) && k <= |run|
    ensures Sorted(states[k]) && Ordered(states[k], col, key)
  {
    hide Shard;
    hide GroupOk;
    if k > 0 {
      var a, act := states[k - 1], run[k - 1];
      OrderKept(states, run, k - 1, col, key);
      SortedKeeps(a, act);
      RunKeeps(states, run, k - 1);
      OneStepOrders(a, act, col, key);
    }
  }

  lemma OneStepOrders(a: Apply, act: Action, col: seq<byte>, key: seq<byte>)
    requires Enabled(a, act) && Inv(a) && Sorted(a) && Ordered(a, col, key)
    ensures Ordered(Act(a, act), col, key)
  {
    hide Shard;
    hide GroupOk;
    match act
    case Store => StoreOrders(a, col, key);
    case Finish(i) =>
      assert ThreadOk(a.threads[i], a.groups, a.queues[i]);
      FinishOrders(a, i, col, key);
    case _ =>
  }

  /** In every run, whatever the threads do, the records of a key are applied in the order in
      which they were pushed. */
  lemma AppliedInArrivalOrder(states: seq<Apply>, run: seq<Action>, k: nat, col: seq<byte>, key: seq<byte>)
    requires IsRun(states, run) && k <= |run|
    ensures Of(states[k].applied, col, key) <= Of(states[k].arrived, col, key)
  {
    hide Shard;
    OrderKept(states, run, k, col, key);
  }

  // ---- what the receiver pushed ----

  /** The records the receiver pushed, but for those it gave up on. */
  function Asked(run: seq<Action>): seq<Job> {
    if run == [] then []
    else
      var front := Asked(run[..|run| - 1]);
      match run[|run| - 1]
      case BeginPush(j) => front + [j]
      case StopPush => if front == [] then [] else front[..|front| - 1]
      case _ => front
  }

  function OnItsWay(receiver: Thread): seq<Job> { if receiver.Pushing? then [receiver.job] else [] }

  /** In every run the records in the rings' arrival order are those the receiver pushed, each as it was
      given, and then the one it is still pushing. */
  lemma {:induction false} ArrivedIsPushed(states: seq<Apply>, run: seq<Action>, k: nat)
    requires IsRun(states, run) && k <= |run|
    ensures Asked(run[..k]) == states[k].arrived + OnItsWay(states[k].receiver)
  {
    hide Shard;
    if k > 0 {
      ArrivedIsPushed(states, run, k - 1);
      assert run[..k][..k - 1] == run[..k - 1] && run[..k][k - 1] == run[k - 1];
      var a, act := states[k - 1], run[k - 1];
      assert act.Store? ==> a.arrived + [a.receiver.job] == states[k].arrived;
    }
  }

  /** There is a group exactly once it was opened, and it is closed exactly once that was asked for. */
  lemma {:induction false} GroupsByRun(states: seq<Apply>, run: seq<Action>, k: nat, g: nat)
    requires IsRun(states, run) && k <= |run|
    ensures g in states[k].groups <==> Open(g) in run[..k]
    ensures g in states[k].groups ==> (states[k].groups[g].closed <==> Close(g) in run[..k])
  {
    hide Shard;
    if k > 0 {
      GroupsByRun(states, run, k - 1, g);
      var a, act := states[k - 1], run[k - 1];
      assert run[..k] == run[..k - 1] + [act];
      if act == Open(g) { NotClosedYet(states, run, k - 1, g); }
    }
  }

  lemma {:induction false} NotClosedYet(states: seq<Apply>, run: seq<Action>, k: nat, g: nat)
    requires IsRun(states, run) && k <= |run| && g !in states[k].groups
    ensures Close(g) !in run[..k]
  {
    hide Shard;
    if k > 0 {
      assert run[..k] == run[..k - 1] + [run[k - 1]];
      NotClosedYet(states, run, k - 1, g);
    }
  }

  /** A step leaves every group alone but the one it touches and one it opens. */
  lemma UntouchedSame(a: Apply, act: Action, g: nat)
    requires Enabled(a, act) && g in a.groups && Touched(a, act) != Some(g)
    ensures g in Act(a, act).groups && Act(a, act).groups[g] == a.groups[g]
  {
    hide Shard;
  }
}
