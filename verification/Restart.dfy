/** A node's life around its snapshots, one numbering space of it: deletes applied, logged and counted
    as separate steps; the snapshot's marker read, its marks captured, its walk while deletes go on, its
    rename and directory sync, the watermarks' file saved after it - and a crash at any point, finding
    any snapshot and any watermarks' file ever written and whatever of the WAL survived
    (src/ackstate.c, and its callers src/rdb.c and src/recover.c). */
module Restart {
  import opened Options
  import opened Watermark

  datatype Rec = Rec(w: nat, num: nat)

  /** `gen` counts captures; `marker` is the WAL seq read before the walk; `holds` the numbered deletes
      the contents reflect. */
  datatype Snapshot = Snapshot(gen: nat, marker: nat, holds: set<nat>)

  /** The watermarks' file: which capture it is of, the marker stamped on it, the space's applied mark. */
  datatype Acks = Acks(gen: nat, marker: nat, mark: nat)

  datatype Phase =
    | Idle
    | MarkerRead(marker: nat)
    | Captured(gen: nat, marker: nat, mark: nat, seen: set<nat>)   // seen: the store at the capture
    | Walking(snap: Snapshot, mark: nat)
    | Renamed(snap: Snapshot, mark: nat)     // the directory not yet synced
    | Published(snap: Snapshot, mark: nat)

  /** `store`: the deletes the store reflects; `durable`: how far the WAL is on disk; `snaps` and `acks`:
      every file of the history the node goes on from; `stray`: watermarks' files of a history that a
      crash gave up; `disk` and `ackDisk`: those the directory may hold. */
  datatype Node = Node(st: State, store: set<nat>, lastSeq: nat, durable: nat, log: seq<Rec>, phase: Phase, gens: nat,
                       snaps: set<Snapshot>, acks: set<Acks>, stray: set<Acks>,
                       disk: set<Snapshot>, ackDisk: set<Acks>)

  datatype Action =
    | Delete(num: nat) | Log(num: nat) | LogOther | Count(num: nat, w: nat) | SyncTo(w: nat) | FloorAt(floor: nat)
    | ReadMarker | Capture | Walk(holds: set<nat>) | Rename | SyncDir | Abandon
    | SaveAcks(durable: bool)
    | Crash(onApply: bool, snap: Option<Snapshot>, acks: Option<Acks>, replay: seq<Rec>, resume: nat)

  function First(onApply: bool): Node { Node(Start(onApply, 0), {}, 0, 0, [], Idle, 0, {}, {}, {}, {}, {}) }

  function UpTo(n: nat): (r: set<nat>)
    ensures forall s :: s in r <==> 1 <= s <= n
  {
    if n == 0 then {} else UpTo(n - 1) + {n}
  }

  /** The test a load makes: the file's marker is the snapshot's. */
  predicate Matches(snap: Option<Snapshot>, acks: Option<Acks>) {
    snap.Some? && acks.Some? && snap.value.marker == acks.value.marker
  }

  /** The marks a recovery starts from. */
  function Restored(snap: Option<Snapshot>, acks: Option<Acks>): seq<Op> {
    if Matches(snap, acks) then [Op.Restored(acks.value.mark)] else []
  }

  /** Every numbered delete found in the log counts, wherever it lies. */
  function Replayed(replay: seq<Rec>): seq<Op> {
    seq(|replay|, i requires 0 <= i < |replay| => Applied(replay[i].num, 0))
  }

  /** What the recovered store holds: the snapshot, and the records past its marker. */
  function Recovered(snap: Option<Snapshot>, replay: seq<Rec>): set<nat> {
    if snap.None? then set r | r in replay :: r.num
    else snap.value.holds + set r | r in replay && r.w > snap.value.marker :: r.num
  }

  ghost predicate Enabled(n: Node, a: Action) {
    match a
    case Delete(num) => num > 0
    case Log(num) => num in n.store
    case Count(num, w) => num in n.store && (!n.st.onApply ==> Rec(w, num) in n.log)
    case SyncTo(w) => w <= n.lastSeq
    case ReadMarker => n.phase.Idle?
    case Capture => n.phase.MarkerRead?
    case Walk(holds) => n.phase.Captured? && n.phase.seen <= holds <= n.store
    case Rename => n.phase.Walking?
    case SyncDir => n.phase.Renamed?
    case SaveAcks(_) => n.phase.Published?
    case Crash(_, snap, acks, replay, resume) =>
      && (snap.Some? ==> snap.value in n.snaps && snap.value.marker <= resume)
      && (acks.Some? ==> acks.value in n.acks + n.stray)
      && (forall r :: r in replay ==> r in n.log && r.w <= resume)
    case _ => true
  }

  /** The files no newer than the snapshot a crash went back to. */
  function SnapsTo(snaps: set<Snapshot>, snap: Option<Snapshot>): set<Snapshot> {
    if snap.None? then {} else set s | s in snaps && s.gen <= snap.value.gen
  }

  function AcksTo(acks: set<Acks>, snap: Option<Snapshot>): set<Acks> {
    if snap.None? then {} else set k | k in acks && k.gen <= snap.value.gen
  }

  function Only<T>(x: Option<T>): set<T> { if x.Some? then {x.value} else {} }

  ghost function Act(n: Node, a: Action): Node
    requires Enabled(n, a)
  {
    match a
    case Delete(num) => n.(store := n.store + {num})
    case Log(num) => n.(lastSeq := n.lastSeq + 1, log := n.log + [Rec(n.lastSeq + 1, num)])
    case LogOther => n.(lastSeq := n.lastSeq + 1)
    case Count(num, w) => n.(st := Step(n.st, Applied(num, w)))
    case SyncTo(w) => n.(st := Step(n.st, Synced(w)), durable := Max(n.durable, w))
    case FloorAt(floor) => n.(store := n.store + UpTo(floor), st := Step(n.st, Floored(floor)))
    case ReadMarker => n.(phase := MarkerRead(n.lastSeq))
    case Capture => n.(phase := Captured(n.gens, n.phase.marker, n.st.sp.mark, n.store), gens := n.gens + 1)
    case Walk(holds) => n.(phase := Walking(Snapshot(n.phase.gen, n.phase.marker, holds), n.phase.mark))
    case Rename =>
      n.(phase := Renamed(n.phase.snap, n.phase.mark), snaps := n.snaps + {n.phase.snap}, disk := n.disk + {n.phase.snap})
    case SyncDir => n.(phase := Published(n.phase.snap, n.phase.mark), disk := {n.phase.snap})
    case Abandon => n.(phase := Idle)
    case SaveAcks(durable) =>
      var k := Acks(n.phase.snap.gen, n.phase.snap.marker, n.phase.mark);
      n.(phase := Idle, acks := n.acks + {k}, ackDisk := if durable then {k} else n.ackDisk + {k})
    case Crash(onApply, snap, acks, replay, resume) =>
      Node(Run(Start(onApply, 0), Restored(snap, acks) + Replayed(replay)),
           Recovered(snap, replay), resume, resume, replay, Idle, n.gens,
           SnapsTo(n.snaps, snap), AcksTo(n.acks, snap), n.stray + n.acks, Only(snap), Only(acks))
  }

  ghost predicate IsRun(states: seq<Node>, run: seq<Action>) {
    && |states| == |run| + 1 && states[0] == First(states[0].st.onApply)
    && forall i :: 0 <= i < |run| ==> Enabled(states[i], run[i]) && states[i + 1] == Act(states[i], run[i])
  }

  // ---- which crashes can be trusted ----

  /** A watermarks' file that passes the marker test is of the surviving history, and was captured for
      the loaded snapshot or for an earlier one. */
  ghost predicate Trusted(n: Node, a: Action) {
    a.Crash? && a.snap.Some? && a.acks.Some? && a.acks.value.marker == a.snap.value.marker ==>
      a.acks.value in n.acks && a.acks.value.gen <= a.snap.value.gen
  }

  ghost predicate AllTrusted(states: seq<Node>, run: seq<Action>, k: nat)
    requires |states| == |run| + 1
  {
    forall i :: 0 <= i < k && i < |run| ==> Trusted(states[i], run[i])
  }

  // ---- what every run keeps ----

  /** What the space recorded or was vouched for, the store reflects. */
  ghost predicate Counts(st: State, store: set<nat>) {
    GoodState(st) && forall s: nat :: Recorded(st.h, s) ==> s in store
  }

  ghost predicate LogOk(log: seq<Rec>, store: set<nat>, lastSeq: nat) {
    forall r :: r in log ==> r.num in store && r.w <= lastSeq
  }

  /** A snapshot is no older than its marker says, and no newer than the store. */
  ghost predicate SnapOk(s: Snapshot, store: set<nat>, log: seq<Rec>, lastSeq: nat) {
    && s.marker <= lastSeq && s.holds <= store
    && (forall r :: r in log && r.w <= s.marker ==> r.num in s.holds)
  }

  /** A later file has what an earlier one has. */
  ghost predicate FilesOk(snaps: set<Snapshot>, acks: set<Acks>, store: set<nat>) {
    && (forall s, t :: s in snaps && t in snaps && s.gen <= t.gen ==> s.holds <= t.holds && s.marker <= t.marker)
    && (forall k, s :: k in acks && s in snaps && k.gen <= s.gen ==> UpTo(k.mark) <= s.holds)
    && (forall k :: k in acks ==> UpTo(k.mark) <= store)
  }

  ghost predicate Older(snaps: set<Snapshot>, acks: set<Acks>, gens: nat) {
    (forall s :: s in snaps ==> s.gen < gens) && (forall k :: k in acks ==> k.gen < gens)
  }

  /** The snapshot in the making has what every file before it has. */
  ghost predicate Newest(x: Snapshot, mark: nat, snaps: set<Snapshot>, acks: set<Acks>) {
    && UpTo(mark) <= x.holds
    && (forall s :: s in snaps ==> s.gen < x.gen && s.holds <= x.holds && s.marker <= x.marker)
    && (forall k :: k in acks ==> k.gen < x.gen && UpTo(k.mark) <= x.holds)
  }

  ghost predicate PhaseOk(n: Node) {
    match n.phase
    case Idle => true
    case MarkerRead(m) => m <= n.lastSeq && forall s :: s in n.snaps ==> s.marker <= m
    case Captured(g, m, c, seen) =>
      var x := Snapshot(g, m, seen);
      g < n.gens && SnapOk(x, n.store, n.log, n.lastSeq) && Newest(x, c, n.snaps, n.acks)
    case Walking(x, c) => x.gen < n.gens && SnapOk(x, n.store, n.log, n.lastSeq) && Newest(x, c, n.snaps, n.acks)
    case Renamed(x, c) => Placed(x, c, n.snaps)
    case Published(x, c) => Placed(x, c, n.snaps)
  }

  ghost predicate Placed(x: Snapshot, mark: nat, snaps: set<Snapshot>) {
    x in snaps && UpTo(mark) <= x.holds && forall s :: s in snaps ==> s.gen <= x.gen
  }

  ghost predicate Inv(n: Node) {
    && Counts(n.st, n.store) && LogOk(n.log, n.store, n.lastSeq)
    && (forall s :: s in n.snaps ==> SnapOk(s, n.store, n.log, n.lastSeq))
    && FilesOk(n.snaps, n.acks, n.store) && Older(n.snaps, n.acks, n.gens)
    && PhaseOk(n)
  }

  lemma StepCounts(st: State, op: Op, store: set<nat>)
    requires Counts(st, store)
    requires op.Applied? ==> op.num == 0 || op.num in store
    requires op.Floored? ==> UpTo(op.floor) <= store
    requires op.Restored? ==> UpTo(op.mark) <= store
    ensures Counts(Step(st, op), store)
  {
    StepKeeps(st, op);
    hide GoodState;
    hide Apply;
    hide Floor;
    hide Sync;
  }

  lemma {:induction false} RunCounts(st: State, ops: seq<Op>, store: set<nat>)
    requires Counts(st, store)
    requires forall op :: op in ops ==>
               (op.Applied? && (op.num == 0 || op.num in store)) || (op.Restored? && UpTo(op.mark) <= store)
    ensures Counts(Run(st, ops), store)
  {
    hide Counts;
    if ops != [] {
      var front := ops[..|ops| - 1];
      assert forall op :: op in front ==> op in ops;
      RunCounts(st, front, store);
      StepCounts(Run(st, front), ops[|ops| - 1], store);
    }
  }

  // ---- a crash ----

  /** The records replayed are all reflected: the snapshot has those up to its marker. */
  lemma ReplayedIsHeld(n: Node, a: Action)
    requires Inv(n) && Enabled(n, a) && a.Crash?
    ensures forall r :: r in a.replay ==> r.num in Recovered(a.snap, a.replay)
  {
    hide Counts;
    forall r | r in a.replay ensures r.num in Recovered(a.snap, a.replay) {
      if a.snap.Some? { assert SnapOk(a.snap.value, n.store, n.log, n.lastSeq); }
    }
  }

  lemma CrashCounts(n: Node, a: Action)
    requires Inv(n) && Enabled(n, a) && a.Crash?
    requires Matches(a.snap, a.acks) ==> UpTo(a.acks.value.mark) <= Recovered(a.snap, a.replay)
    ensures Counts(Act(n, a).st, Recovered(a.snap, a.replay))
  {
    ReplayedIsHeld(n, a);
    hide Inv;
    hide GoodState;
    hide Step;
    hide Recovered;
    var store := Recovered(a.snap, a.replay);
    StartIsGood(a.onApply, 0);
    assert Counts(Start(a.onApply, 0), store);
    RunCounts(Start(a.onApply, 0), Restored(a.snap, a.acks) + Replayed(a.replay), store);
  }

  lemma TrustedIsHeld(n: Node, a: Action)
    requires Inv(n) && Enabled(n, a) && a.Crash? && Trusted(n, a) && Matches(a.snap, a.acks)
    ensures UpTo(a.acks.value.mark) <= Recovered(a.snap, a.replay)
  {
    hide Counts;
    hide UpTo;
  }

  lemma CrashFiles(n: Node, a: Action)
    requires Inv(n) && Enabled(n, a) && a.Crash?
    ensures var n' := Act(n, a);
      && LogOk(n'.log, n'.store, n'.lastSeq)
      && (forall s :: s in n'.snaps ==> SnapOk(s, n'.store, n'.log, n'.lastSeq))
      && FilesOk(n'.snaps, n'.acks, n'.store) && Older(n'.snaps, n'.acks, n'.gens)
  {
    hide Counts;
    hide UpTo;
    ReplayedIsHeld(n, a);
    hide Run;
    var n' := Act(n, a);
    if a.snap.Some? {
      assert forall s :: s in n'.snaps ==> s in n.snaps && s.holds <= a.snap.value.holds && s.marker <= a.snap.value.marker;
      forall s | s in n'.snaps ensures SnapOk(s, n'.store, n'.log, n'.lastSeq) {
        assert SnapOk(s, n.store, n.log, n.lastSeq);
      }
    }
  }

  lemma CrashKeeps(n: Node, a: Action)
    requires Inv(n) && Enabled(n, a) && a.Crash? && Trusted(n, a)
    ensures Inv(Act(n, a))
  {
    if Matches(a.snap, a.acks) { TrustedIsHeld(n, a); }
    CrashCounts(n, a);
    CrashFiles(n, a);
    hide Counts;
    hide SnapOk;
    hide FilesOk;
    hide Run;
  }

  /** Exactly: after a crash no rebuilt mark covers a delete the recovered store lacks if and only if the
      marks restored, when any are, are all among what was recovered. */
  lemma CrashIsExact(n: Node, a: Action)
    requires Inv(n) && Enabled(n, a) && a.Crash?
    ensures var n' := Act(n, a);
      (forall s :: 1 <= s <= n'.st.sp.mark ==> s in n'.store) <==>
      (Matches(a.snap, a.acks) ==> UpTo(a.acks.value.mark) <= Recovered(a.snap, a.replay))
  {
    var n' := Act(n, a);
    if Matches(a.snap, a.acks) && !(UpTo(a.acks.value.mark) <= Recovered(a.snap, a.replay)) {
      RestoredStays(a.onApply, a.acks.value.mark, Replayed(a.replay));
      hide Inv;
      hide Run;
      hide UpTo;
      var s :| s in UpTo(a.acks.value.mark) && s !in Recovered(a.snap, a.replay);
      assert 1 <= s <= n'.st.sp.mark;
    } else {
      CrashCounts(n, a);
      hide Inv;
      hide Run;
      assert forall s :: 1 <= s <= n'.st.sp.mark ==> Recorded(n'.st.h, s);
    }
  }

  /** Replaying only moves a restored mark up. */
  lemma RestoredStays(onApply: bool, mark: nat, ops: seq<Op>)
    requires forall op :: op in ops ==> op.Applied?
    ensures Run(Start(onApply, 0), [Op.Restored(mark)] + ops).sp.mark >= mark
  {
    StartIsGood(onApply, 0);
    var st := Step(Start(onApply, 0), Op.Restored(mark));
    StepKeeps(Start(onApply, 0), Op.Restored(mark));
    RunSplits(Start(onApply, 0), Op.Restored(mark), ops);
    ConfirmedNeverFalls(st, ops);
    RunKeeps(st, ops);
  }

  lemma {:induction false} RunSplits(st: State, op: Op, ops: seq<Op>)
    ensures Run(st, [op] + ops) == Run(Step(st, op), ops)
    decreases |ops|
  {
    hide Step;
    if ops == [] {
      assert [op] + ops == [op] && [op][..0] == [];
      assert Run(st, [op]) == Step(Run(st, [op][..0]), op);
    } else {
      var k := |ops| - 1;
      RunSplits(st, op, ops[..k]);
      assert ([op] + ops)[..k + 1] == [op] + ops[..k] && ([op] + ops)[k + 1] == ops[k];
    }
  }

  // ---- the other steps ----

  /** More of the store, the log and time: what was right of a snapshot stays right. */
  lemma SnapGrows(s: Snapshot, n: Node, n': Node)
    requires SnapOk(s, n.store, n.log, n.lastSeq)
    requires n.store <= n'.store && n.lastSeq <= n'.lastSeq
    requires forall r :: r in n'.log ==> r in n.log || r.w > n.lastSeq
    ensures SnapOk(s, n'.store, n'.log, n'.lastSeq)
  {
  }

  /** A step of the running node, none of its files or phases touched. */
  lemma WorkKeeps(n: Node, n': Node)
    requires Inv(n) && n'.phase == n.phase && n'.snaps == n.snaps && n'.acks == n.acks && n'.gens == n.gens
    requires Counts(n'.st, n'.store)
    requires n.store <= n'.store && n.lastSeq <= n'.lastSeq
    requires forall r :: r in n'.log ==> r in n.log || (n.lastSeq < r.w <= n'.lastSeq && r.num in n'.store)
    ensures Inv(n')
  {
    hide Counts;
    hide SnapOk;
    hide UpTo;
    forall s | SnapOk(s, n.store, n.log, n.lastSeq) ensures SnapOk(s, n'.store, n'.log, n'.lastSeq) {
      SnapGrows(s, n, n');
    }
  }

  lemma CaptureKeeps(n: Node)
    requires Inv(n) && Enabled(n, Capture)
    ensures Inv(Act(n, Capture))
  {
    assert forall s :: 1 <= s <= n.st.sp.mark ==> Recorded(n.st.h, s);
    assert UpTo(n.st.sp.mark) <= n.store;
    hide Counts;
    hide UpTo;
  }

  lemma SnapshotKeeps(n: Node, a: Action)
    requires Inv(n) && Enabled(n, a)
    requires a.ReadMarker? || a.Walk? || a.Rename? || a.SyncDir? || a.Abandon?
    ensures Inv(Act(n, a))
  {
    hide Counts;
    hide UpTo;
    if a.ReadMarker? {
      forall s | s in n.snaps ensures s.marker <= n.lastSeq { assert SnapOk(s, n.store, n.log, n.lastSeq); }
    }
  }

  lemma SaveKeeps(n: Node, durable: bool)
    requires Inv(n) && Enabled(n, SaveAcks(durable))
    ensures Inv(Act(n, SaveAcks(durable)))
  {
    hide Counts;
    hide UpTo;
    var x := n.phase.snap;
    assert SnapOk(x, n.store, n.log, n.lastSeq);
    assert forall s :: s in n.snaps && x.gen <= s.gen ==> s.gen == x.gen && x.holds <= s.holds;
  }

  lemma ActKeeps(n: Node, a: Action)
    requires Inv(n) && Enabled(n, a) && Trusted(n, a)
    ensures Inv(Act(n, a))
  {
    match a
    case Delete(num) => WorkKeeps(n, Act(n, a));
    case Log(num) => WorkKeeps(n, Act(n, a));
    case LogOther => WorkKeeps(n, Act(n, a));
    case Count(num, w) =>
      StepCounts(n.st, Applied(num, w), n.store);
      WorkKeeps(n, Act(n, a));
    case SyncTo(w) =>
      StepCounts(n.st, Synced(w), n.store);
      WorkKeeps(n, Act(n, a));
    case FloorAt(floor) =>
      StepCounts(n.st, Floored(floor), n.store + UpTo(floor));
      WorkKeeps(n, Act(n, a));
    case Crash(_, _, _, _, _) => CrashKeeps(n, a);
    case Capture => CaptureKeeps(n);
    case SaveAcks(durable) => SaveKeeps(n, durable);
    case ReadMarker => SnapshotKeeps(n, a);
    case Walk(_) => SnapshotKeeps(n, a);
    case Rename => SnapshotKeeps(n, a);
    case SyncDir => SnapshotKeeps(n, a);
    case Abandon => SnapshotKeeps(n, a);
  }

  lemma {:induction false} RunKeepsInv(states: seq<Node>, run: seq<Action>, k: nat)
    requires IsRun(states, run) && k < |states| && AllTrusted(states, run, k)
    ensures Inv(states[k])
  {
    if k > 0 {
      RunKeepsInv(states, run, k - 1);
      hide Act;
      ActKeeps(states[k - 1], run[k - 1]);
    } else {
      StartIsGood(states[0].st.onApply, 0);
    }
  }

  // ---- the results ----

  /** Restart never over-claims: in every run whose crashes are trusted - whatever else they find and
      lose - no applied mark, so no confirmed one, covers a delete the store does not reflect. */
  lemma NeverOverclaims(states: seq<Node>, run: seq<Action>, k: nat, s: nat)
    requires IsRun(states, run) && k < |states| && AllTrusted(states, run, k)
    requires 1 <= s <= states[k].st.sp.mark
    ensures states[k].st.sp.dmark <= states[k].st.sp.mark && s in states[k].store
  {
    RunKeepsInv(states, run, k);
    assert Recorded(states[k].st.h, s);
  }

  // ---- the files of the directory ----

  /** A crash that finds what the directory holds: the snapshot renamed last or its predecessor, and with
      it the watermarks saved last or, if that save was not synced, those before. */
  ghost predicate Direct(n: Node, a: Action) {
    a.Crash? ==>
      (a.snap.Some? ==> a.snap.value in n.disk) && (a.acks.Some? ==> a.snap.Some? && a.acks.value in n.ackDisk)
  }

  ghost predicate AllDirect(states: seq<Node>, run: seq<Action>, k: nat)
    requires |states| == |run| + 1
  {
    forall i :: 0 <= i < k && i < |run| ==> Direct(states[i], run[i])
  }

  /** The directory's watermarks are never of a later capture than its snapshots. */
  ghost predicate DirOk(n: Node) {
    && n.disk <= n.snaps && n.ackDisk <= n.acks
    && (forall k, s :: k in n.ackDisk && s in n.disk ==> k.gen <= s.gen)
    && match n.phase
       case Captured(g, _, _, _) => g < n.gens && forall k :: k in n.ackDisk ==> k.gen < g
       case Walking(x, _) => forall k :: k in n.ackDisk ==> k.gen < x.gen
       case Renamed(x, _) => x in n.snaps && forall k :: k in n.ackDisk ==> k.gen <= x.gen
       case Published(x, _) => n.disk == {x}
       case _ => true
  }

  lemma DirKeeps(n: Node, a: Action)
    requires DirOk(n) && Older(n.snaps, n.acks, n.gens) && Enabled(n, a) && Direct(n, a)
    ensures DirOk(Act(n, a)) && Trusted(n, a)
  {
    hide Step;
    hide Run;
    hide UpTo;
  }

  /** Such crashes are trusted: no condition is left. */
  lemma {:induction false} DirectIsTrusted(states: seq<Node>, run: seq<Action>, k: nat)
    requires IsRun(states, run) && k < |states| && AllDirect(states, run, k)
    ensures AllTrusted(states, run, k) && DirOk(states[k])
  {
    hide Act;
    if k > 0 {
      DirectIsTrusted(states, run, k - 1);
      RunKeepsInv(states, run, k - 1);
      DirKeeps(states[k - 1], run[k - 1]);
    }
  }

  /** So in every run whose crashes find what the directory holds, no mark over-claims. */
  lemma DirectoryIsEnough(states: seq<Node>, run: seq<Action>, k: nat, s: nat)
    requires IsRun(states, run) && k < |states| && AllDirect(states, run, k)
    requires 1 <= s <= states[k].st.sp.mark
    ensures s in states[k].store
  {
    hide AllTrusted;
    hide DirOk;
    DirectIsTrusted(states, run, k);
    NeverOverclaims(states, run, k, s);
  }

  // ---- exactly the captured marks ----

  /** What the captures before step k read: which capture, the marker, the mark. */
  function Read(states: seq<Node>, run: seq<Action>, k: nat): set<Acks>
    requires |states| == |run| + 1 && k <= |run|
  {
    if k == 0 then {}
    else
      var n := states[k - 1];
      Read(states, run, k - 1)
      + if run[k - 1].Capture? && n.phase.MarkerRead? then {Acks(n.gens, n.phase.marker, n.st.sp.mark)} else {}
  }

  /** Every watermarks' file, and the one in the making, is among these. */
  ghost predicate From(n: Node, read: set<Acks>) {
    && n.acks + n.stray <= read
    && match n.phase
       case Captured(g, m, c, _) => Acks(g, m, c) in read
       case Walking(x, c) => Acks(x.gen, x.marker, c) in read
       case Renamed(x, c) => Acks(x.gen, x.marker, c) in read
       case Published(x, c) => Acks(x.gen, x.marker, c) in read
       case _ => true
  }

  lemma FromStep(n: Node, a: Action, read: set<Acks>)
    requires Enabled(n, a) && From(n, read)
    ensures From(Act(n, a), read + if a.Capture? then {Acks(n.gens, n.phase.marker, n.st.sp.mark)} else {})
  {
    hide Step;
    hide Run;
    hide UpTo;
    hide Recovered;
  }

  lemma {:induction false} RunHasSources(states: seq<Node>, run: seq<Action>, k: nat)
    requires IsRun(states, run) && k <= |run|
    ensures From(states[k], Read(states, run, k))
  {
    if k > 0 {
      hide Act;
      hide From;
      RunHasSources(states, run, k - 1);
      FromStep(states[k - 1], run[k - 1], Read(states, run, k - 1));
    }
  }

  lemma {:induction false} WasRead(states: seq<Node>, run: seq<Action>, k: nat, x: Acks) returns (i: nat)
    requires |states| == |run| + 1 && k <= |run| && x in Read(states, run, k)
    ensures i < k && run[i].Capture? && states[i].phase == MarkerRead(x.marker) && states[i].st.sp.mark == x.mark
  {
    if x in Read(states, run, k - 1) { i := WasRead(states, run, k - 1, x); } else { i := k - 1; }
  }

  /** What a crash restores is either nothing or exactly what some capture earlier in the run read under
      the loaded snapshot's marker. */
  lemma RestoredWasCaptured(states: seq<Node>, run: seq<Action>, k: nat)
    requires IsRun(states, run) && k < |run| && run[k].Crash?
    ensures Restored(run[k].snap, run[k].acks) == [] ||
      (exists i :: 0 <= i < k && run[i].Capture? && states[i].phase == MarkerRead(run[k].snap.value.marker)
        && Restored(run[k].snap, run[k].acks) == [Op.Restored(states[i].st.sp.mark)])
  {
    RunHasSources(states, run, k);
    if Matches(run[k].snap, run[k].acks) {
      var a := run[k].acks.value;
      assert a in states[k].acks + states[k].stray;
      var i := WasRead(states, run, k, a);
      assert run[i].Capture?;
    }
  }

  // ---- a marker that names two snapshots ----

  lemma Extend(states: seq<Node>, run: seq<Action>, a: Action) returns (states': seq<Node>, run': seq<Action>)
    requires IsRun(states, run) && Enabled(states[|run|], a)
    ensures IsRun(states', run') && |run'| == |run| + 1 && states'[|run'|] == Act(states[|run|], a) && run' == run + [a]
    ensures states'[..|states|] == states
  {
    hide Act;
    hide Enabled;
    hide First;
    states', run' := states + [Act(states[|run|], a)], run + [a];
    forall i | 0 <= i < |run'| ensures Enabled(states'[i], run'[i]) && states'[i + 1] == Act(states'[i], run'[i]) {
      if i < |run| { assert states'[i] == states[i] && states'[i + 1] == states[i + 1] && run'[i] == run[i]; }
    }
  }

  lemma ToTheWalk(states: seq<Node>, run: seq<Action>) returns (states': seq<Node>, run': seq<Action>)
    requires IsRun(states, run) && states[|run|].phase.Idle? && NoCrash(run)
    ensures IsRun(states', run') && NoCrash(run')
    ensures var n := states[|run|];
      states'[|run'|] == n.(phase := Walking(Snapshot(n.gens, n.lastSeq, n.store), n.st.sp.mark), gens := n.gens + 1)
  {
    hide Step;
    hide Run;
    hide UpTo;
    var n := states[|run|];
    hide IsRun;
    states', run' := Extend(states, run, ReadMarker);
    states', run' := Extend(states', run', Capture);
    states', run' := Extend(states', run', Walk(n.store));
  }

  lemma FromTheWalk(states: seq<Node>, run: seq<Action>) returns (states': seq<Node>, run': seq<Action>)
    requires IsRun(states, run) && states[|run|].phase.Walking? && NoCrash(run)
    ensures IsRun(states', run') && NoCrash(run')
    ensures var n := states[|run|];
      var x := n.phase.snap;
      var k := Acks(x.gen, x.marker, n.phase.mark);
      states'[|run'|] == n.(phase := Idle, snaps := n.snaps + {x}, disk := {x}, acks := n.acks + {k}, ackDisk := {k})
  {
    hide Step;
    hide Run;
    hide UpTo;
    hide IsRun;
    states', run' := Extend(states, run, Rename);
    states', run' := Extend(states', run', SyncDir);
    states', run' := Extend(states', run', SaveAcks(true));
  }

  /** A snapshot taken with nothing else going on, from the marker to the saved watermarks. */
  lemma TakeOne(states: seq<Node>, run: seq<Action>) returns (states': seq<Node>, run': seq<Action>)
    requires IsRun(states, run) && states[|run|].phase.Idle? && NoCrash(run)
    ensures IsRun(states', run') && NoCrash(run')
    ensures var n := states[|run|];
      var x, k := Snapshot(n.gens, n.lastSeq, n.store), Acks(n.gens, n.lastSeq, n.st.sp.mark);
      states'[|run'|] == n.(gens := n.gens + 1, snaps := n.snaps + {x}, disk := {x}, acks := n.acks + {k}, ackDisk := {k})
  {
    hide IsRun;
    states', run' := ToTheWalk(states, run);
    states', run' := FromTheWalk(states', run');
  }

  predicate NoCrash(run: seq<Action>) { forall i :: 0 <= i < |run| ==> !run[i].Crash? }

  const NONE_HELD := Snapshot(0, 0, {})
  const LATER := Acks(1, 0, 1)

  /** A node that keeps no WAL takes a snapshot, applies delete 1 and takes another; both are marked 0. */
  lemma TwoSnapshots() returns (states: seq<Node>, run: seq<Action>)
    ensures IsRun(states, run) && NONE_HELD in states[|run|].snaps && LATER in states[|run|].acks && NoCrash(run)
  {
    assert Absorb(1, {}) == (1, {});
    assert Apply(EMPTY, true, 0, 1, 0).0.mark == 1;
    var st := Step(Start(true, 0), Applied(1, 0));
    assert st.sp.mark == 1;
    states, run := TakeOne([First(true)], []);
    hide IsRun;
    hide Step;
    states, run := Extend(states, run, Delete(1));
    states, run := Extend(states, run, Count(1, 0));
    assert states[|run|].st == st && states[|run|].lastSeq == 0 && states[|run|].gens == 1;
    states, run := TakeOne(states, run);
  }

  /** The condition is needed: a crash that finds the first of them with the marks of the second passes the
      marker test, and restores a mark for a delete the recovered store does not have. */
  lemma SameMarkerOverclaims() returns (states: seq<Node>, run: seq<Action>)
    ensures IsRun(states, run) && run != [] && AllTrusted(states, run, |run| - 1)
    ensures states[|run|].st.sp.mark >= 1 && 1 !in states[|run|].store
  {
    states, run := TwoSnapshots();
    var a := Crash(true, Some(NONE_HELD), Some(LATER), [], 0);
    states, run := Extend(states, run, a);
    RestoredStays(true, 1, Replayed([]));
    assert Restored(a.snap, a.acks) + Replayed([]) == [Op.Restored(1)] + Replayed([]);
    assert Recovered(a.snap, []) == {};
  }

  // ---- what was confirmed survives ----

  /** Every counted delete has its record in the log, at the WAL seq it was counted with or on disk. */
  ghost predicate Logged(n: Node) {
    && n.st.synced <= n.durable
    && (!n.st.onApply ==> forall s :: s in n.st.h.rec ==> HasRecord(n.log, n.durable, s, n.st.h.rec[s]))
  }

  ghost predicate HasRecord(log: seq<Rec>, durable: nat, s: nat, w: nat) {
    exists r :: r in log && r.num == s && (r.w == w || r.w <= durable)
  }

  /** What Step does to the account of an apply: the seq under its WAL seq, or nothing. */
  lemma RecAfter(st: State, op: Op)
    ensures var st' := Step(st, op);
      && (forall s :: s in st'.h.rec ==> (s in st.h.rec && st'.h.rec[s] == st.h.rec[s])
                                         || (op.Applied? && s == op.num && st'.h.rec[s] == op.w))
      && st'.onApply == st.onApply && st'.synced == (if op.Synced? then Max(st.synced, op.w) else st.synced)
  {
    hide Apply;
    hide Floor;
    hide Sync;
  }

  lemma {:induction false} ReplayRec(onApply: bool, ops: seq<Op>)
    requires forall op :: op in ops ==> op.Applied? || op.Restored?
    ensures var st := Run(Start(onApply, 0), ops);
      && st.synced == 0 && st.onApply == onApply
      && forall s :: s in st.h.rec ==> exists op :: op in ops && op.Applied? && op.num == s
  {
    hide Step;
    if ops != [] {
      var front, op := ops[..|ops| - 1], ops[|ops| - 1];
      assert forall o :: o in front ==> o in ops;
      ReplayRec(onApply, front);
      RecAfter(Run(Start(onApply, 0), front), op);
      assert op in ops;
    }
  }

  lemma CrashLogs(n: Node, a: Action)
    requires Enabled(n, a) && a.Crash?
    ensures Logged(Act(n, a))
  {
    var ops := Restored(a.snap, a.acks) + Replayed(a.replay);
    ReplayRec(a.onApply, ops);
    var n' := Act(n, a);
    hide Run;
    forall s | s in n'.st.h.rec ensures HasRecord(n'.log, n'.durable, s, n'.st.h.rec[s]) {
      var op :| op in ops && op.Applied? && op.num == s;
      assert op in Replayed(a.replay);
      var i :| 0 <= i < |a.replay| && Replayed(a.replay)[i] == op;
      assert a.replay[i] in a.replay;
    }
  }

  lemma LoggedKeeps(n: Node, a: Action)
    requires Logged(n) && Enabled(n, a)
    ensures Logged(Act(n, a))
  {
    hide Run;
    match a
    case Crash(_, _, _, _, _) => CrashLogs(n, a);
    case Count(num, w) => RecAfter(n.st, Applied(num, w)); RecordsStay(n, a);
    case SyncTo(w) => RecAfter(n.st, Synced(w)); RecordsStay(n, a);
    case FloorAt(floor) => RecAfter(n.st, Floored(floor)); RecordsStay(n, a);
    case _ => RecordsStay(n, a);
  }

  lemma RecordsStay(n: Node, a: Action)
    requires Enabled(n, a) && !a.Crash?
    ensures var n' := Act(n, a); forall s, w :: HasRecord(n.log, n.durable, s, w) ==> HasRecord(n'.log, n'.durable, s, w)
  {
    hide Step;
    hide UpTo;
    var n' := Act(n, a);
    forall s, w | HasRecord(n.log, n.durable, s, w) ensures HasRecord(n'.log, n'.durable, s, w) {
      var r :| r in n.log && r.num == s && (r.w == w || r.w <= n.durable);
      assert r in n'.log;
    }
  }

  lemma {:induction false} RunLogs(states: seq<Node>, run: seq<Action>, k: nat)
    requires IsRun(states, run) && k < |states|
    ensures Logged(states[k])
  {
    hide Act;
    hide Logged;
    if k > 0 {
      RunLogs(states, run, k - 1);
      LoggedKeeps(states[k - 1], run[k - 1]);
    } else {
      assert Logged(First(states[0].st.onApply)) by { NothingLogged(states[0].st.onApply); }
    }
  }

  lemma NothingLogged(onApply: bool)
    ensures Logged(First(onApply))
  {
  }

  /** The crash lost no record that was on disk and past the snapshot. */
  ghost predicate KeepsDurable(n: Node, a: Action)
    requires a.Crash?
  {
    forall r :: r in n.log && r.w <= n.durable && (a.snap.None? || r.w > a.snap.value.marker) ==> r in a.replay
  }

  /** What was confirmed survives: at a node with a WAL, every delete it recorded at or below its confirmed
      mark is reflected by the store a crash leaves, when the crash keeps what was on disk. */
  lemma ConfirmedSurvives(states: seq<Node>, run: seq<Action>, k: nat, s: nat)
    requires IsRun(states, run) && k < |run| && AllTrusted(states, run, k)
    requires run[k].Crash? && KeepsDurable(states[k], run[k]) && !states[k].st.onApply
    requires states[k].st.h.base < s <= states[k].st.sp.dmark
    ensures s in states[k + 1].store
  {
    RunKeepsInv(states, run, k);
    RunLogs(states, run, k);
    var n, a := states[k], run[k];
    assert s in n.st.h.rec && n.st.h.rec[s] <= n.st.synced;
    hide GoodState;
    hide Run;
    assert HasRecord(n.log, n.durable, s, n.st.h.rec[s]);
    var r :| r in n.log && r.num == s && (r.w == n.st.h.rec[s] || r.w <= n.durable);
    if a.snap.Some? && r.w <= a.snap.value.marker {
      assert SnapOk(a.snap.value, n.store, n.log, n.lastSeq);
    } else {
      assert r in a.replay;
    }
  }

  // ---- and so does what was restored ----

  /** The mark the last crash before step k restored. */
  function Given(run: seq<Action>, k: nat): nat
    requires k <= |run|
  {
    if k == 0 then 0
    else match run[k - 1] {
      case Crash(_, snap, acks, _, _) => if Matches(snap, acks) then acks.value.mark else 0
      case _ => Given(run, k - 1)
    }
  }

  /** Everything the directory may offer, or will, reflects the deletes up to `mark`. */
  ghost predicate AllHave(n: Node, mark: nat) {
    && UpTo(mark) <= n.store && (n.disk == {} ==> mark == 0) && (forall d :: d in n.disk ==> UpTo(mark) <= d.holds)
    && match n.phase
       case Captured(_, _, _, seen) => UpTo(mark) <= seen
       case Walking(x, _) => UpTo(mark) <= x.holds
       case Renamed(x, _) => UpTo(mark) <= x.holds
       case Published(x, _) => UpTo(mark) <= x.holds
       case _ => true
  }

  /** A crash finds a snapshot if there is one. */
  ghost predicate AllFind(states: seq<Node>, run: seq<Action>, k: nat)
    requires |states| == |run| + 1
  {
    AllDirect(states, run, k) && forall i :: 0 <= i < k && i < |run| ==> Finds(states[i], run[i])
  }

  ghost predicate Finds(n: Node, a: Action) { a.Crash? && n.disk != {} ==> a.snap.Some? }

  lemma HaveKeeps(n: Node, a: Action, mark: nat)
    requires AllHave(n, mark) && Enabled(n, a) && !a.Crash?
    ensures AllHave(Act(n, a), mark)
  {
    hide Step;
    hide UpTo;
  }

  lemma CrashHas(n: Node, a: Action)
    requires Inv(n) && Enabled(n, a) && a.Crash? && Trusted(n, a)
    ensures AllHave(Act(n, a), if Matches(a.snap, a.acks) then a.acks.value.mark else 0)
  {
    hide Counts;
    hide Run;
    assert UpTo(0) == {};
    hide UpTo;
  }

  lemma {:induction false} RunHas(states: seq<Node>, run: seq<Action>, k: nat)
    requires IsRun(states, run) && k < |states| && AllFind(states, run, k)
    ensures AllHave(states[k], Given(run, k))
  {
    if k > 0 {
      hide Act;
      hide AllHave;
      hide Inv;
      hide Trusted;
      RunHas(states, run, k - 1);
      DirectIsTrusted(states, run, k);
      RunKeepsInv(states, run, k - 1);
      if run[k - 1].Crash? { CrashHas(states[k - 1], run[k - 1]); }
      else { HaveKeeps(states[k - 1], run[k - 1], Given(run, k - 1)); }
    } else {
      assert UpTo(0) == {};
    }
  }

  /** What a crash restored, the next one does not lose, when both find what the directory holds. */
  lemma RestoredSurvives(states: seq<Node>, run: seq<Action>, k: nat, s: nat)
    requires IsRun(states, run) && k < |run| && run[k].Crash? && AllFind(states, run, k + 1)
    requires 1 <= s <= Given(run, k)
    ensures s in states[k + 1].store
  {
    RunHas(states, run, k);
    hide Run;
    assert s in UpTo(Given(run, k));
    assert Finds(states[k], run[k]) && Direct(states[k], run[k]);
  }

  // ---- so a whole confirmed mark does ----

  /** No floor since the last crash, so the account takes no other delete as given. */
  predicate NoFloor(run: seq<Action>, k: nat)
    requires k <= |run|
  {
    k > 0 && !run[k - 1].Crash? ==> !run[k - 1].FloorAt? && NoFloor(run, k - 1)
  }

  lemma {:induction false} ReplayBase(st: State, ops: seq<Op>)
    requires forall op :: op in ops ==> op.Applied?
    ensures Run(st, ops).h.base == st.h.base
    decreases |ops|
  {
    hide Apply;
    if ops != [] {
      var front := ops[..|ops| - 1];
      assert forall op :: op in front ==> op in ops;
      ReplayBase(st, front);
      assert ops[|ops| - 1] in ops;
    }
  }

  lemma CrashBase(n: Node, a: Action)
    requires Enabled(n, a) && a.Crash?
    ensures Act(n, a).st.h.base == if Matches(a.snap, a.acks) then a.acks.value.mark else 0
  {
    var ops := Replayed(a.replay);
    var st := Start(a.onApply, 0);
    if Matches(a.snap, a.acks) {
      RunSplits(st, Op.Restored(a.acks.value.mark), ops);
      ReplayBase(Step(st, Op.Restored(a.acks.value.mark)), ops);
    } else {
      assert Restored(a.snap, a.acks) + ops == ops;
      ReplayBase(st, ops);
    }
  }

  lemma {:induction false} BaseIsGiven(states: seq<Node>, run: seq<Action>, k: nat)
    requires IsRun(states, run) && k < |states| && NoFloor(run, k)
    ensures states[k].st.h.base == Given(run, k)
  {
    hide Run;
    hide Apply;
    hide Sync;
    hide UpTo;
    if k > 0 {
      if run[k - 1].Crash? { CrashBase(states[k - 1], run[k - 1]); }
      else { BaseIsGiven(states, run, k - 1); }
    }
  }

  /** A node with a WAL that crashes again and again, each time finding what its directory holds and every
      record on disk past the snapshot, loses no delete at or below its confirmed mark. */
  lemma MarkSurvives(states: seq<Node>, run: seq<Action>, k: nat, s: nat)
    requires IsRun(states, run) && k < |run| && run[k].Crash? && AllFind(states, run, k + 1)
    requires KeepsDurable(states[k], run[k]) && !states[k].st.onApply && NoFloor(run, k)
    requires 1 <= s <= states[k].st.sp.dmark
    ensures s in states[k + 1].store
  {
    BaseIsGiven(states, run, k);
    hide Act;
    hide Enabled;
    if s <= Given(run, k) {
      RestoredSurvives(states, run, k, s);
    } else {
      DirectIsTrusted(states, run, k);
      ConfirmedSurvives(states, run, k, s);
    }
  }

  // ---- what the actions say the node has ----

  /** The deletes done since the last crash, with those it recovered. */
  function StoreBy(run: seq<Action>): set<nat> {
    if run == [] then {}
    else
      var front := StoreBy(run[..|run| - 1]);
      match run[|run| - 1]
      case Delete(num) => front + {num}
      case FloorAt(floor) => front + UpTo(floor)
      case Crash(_, snap, _, replay, _) => Recovered(snap, replay)
      case _ => front
  }

  function LastBy(run: seq<Action>): nat {
    if run == [] then 0
    else
      var front := LastBy(run[..|run| - 1]);
      match run[|run| - 1]
      case Log(_) => front + 1
      case LogOther => front + 1
      case Crash(_, _, _, _, resume) => resume
      case _ => front
  }

  /** Each delete logged, under the number its place in the WAL gives it. */
  function LogBy(run: seq<Action>): seq<Rec> {
    if run == [] then []
    else
      var front, earlier := LogBy(run[..|run| - 1]), run[..|run| - 1];
      match run[|run| - 1]
      case Log(num) => front + [Rec(LastBy(earlier) + 1, num)]
      case Crash(_, _, _, replay, _) => replay
      case _ => front
  }

  ghost predicate IsBy(n: Node, run: seq<Action>) {
    n.store == StoreBy(run) && n.lastSeq == LastBy(run) && n.log == LogBy(run)
  }

  lemma StepBy(n: Node, a: Action, run: seq<Action>)
    requires Enabled(n, a) && IsBy(n, run)
    ensures IsBy(Act(n, a), run + [a])
  {
    hide Step;
    hide Run;
    hide UpTo;
    hide Recovered;
    assert (run + [a])[..|run|] == run;
  }

  /** In every run the store and the log are what the actions say. */
  lemma {:induction false} NodeByRun(states: seq<Node>, run: seq<Action>, k: nat)
    requires IsRun(states, run) && k < |states|
    ensures var n := states[k]; n.store == StoreBy(run[..k]) && n.lastSeq == LastBy(run[..k]) && n.log == LogBy(run[..k])
  {
    hide Act;
    hide Enabled;
    if k > 0 {
      NodeByRun(states, run, k - 1);
      StepBy(states[k - 1], run[k - 1], run[..k - 1]);
      assert run[..k] == run[..k - 1] + [run[k - 1]];
    }
  }

  // ---- what a restart counts ----

  lemma ApplyRecords(sp: Space, h: History, onApply: bool, synced: nat, num: nat, w: nat)
    requires WindowOk(sp.mark, sp.hi, sp.ahead, h) && num > 0
    ensures var (sp', out) := Apply(sp, onApply, synced, num, w);
      && sp.mark <= sp'.mark && (num <= sp.mark + WINDOW ==> Recorded(Noted(h, num, w, out), num))
      && forall s :: Recorded(h, s) ==> Recorded(Noted(h, num, w, out), s)
  {
    AbsorbRuns(sp.mark + 1, sp.ahead);
    ConfirmFrame(Advance(sp.(hi := Max(sp.hi, num)), w), onApply, synced);
    hide Confirm;
  }

  lemma AppliedRecords(st: State, num: nat, w: nat)
    requires GoodState(st)
    ensures var st' := Step(st, Applied(num, w));
      && GoodState(st') && st.sp.mark <= st'.sp.mark
      && (0 < num <= st.sp.mark + WINDOW ==> Recorded(st'.h, num))
      && forall s :: Recorded(st.h, s) ==> Recorded(st'.h, s)
  {
    StepKeeps(st, Applied(num, w));
    hide Apply;
    hide QueueOk;
    hide MaximaOk;
    hide WindowOk;
    if num > 0 { ApplyRecords(st.sp, st.h, st.onApply, st.synced, num, w); }
  }

  lemma {:induction false} ReplayRecords(st: State, ops: seq<Op>, s: nat)
    requires GoodState(st) && forall op :: op in ops ==> op.Applied?
    ensures var st' := Run(st, ops);
      && GoodState(st') && st.sp.mark <= st'.sp.mark
      && (Recorded(st.h, s) || (0 < s <= st.sp.mark + WINDOW && exists op :: op in ops && op.num == s) ==> Recorded(st'.h, s))
    decreases |ops|
  {
    hide Step;
    hide GoodState;
    hide Recorded;
    if ops != [] {
      var front, op := ops[..|ops| - 1], ops[|ops| - 1];
      assert forall o :: o in front ==> o in ops;
      assert op in ops && ops == front + [op];
      ReplayRecords(st, front, s);
      AppliedRecords(Run(st, front), op.num, op.w);
    }
  }

  /** A restart counts what it restores and what it replays: every numbered delete found in the log, up to
      a window past the restored mark, is recorded again. */
  lemma ReplayIsCounted(n: Node, a: Action, r: Rec)
    requires Enabled(n, a) && a.Crash? && r in a.replay
    requires 0 < r.num <= (if Matches(a.snap, a.acks) then a.acks.value.mark else 0) + WINDOW
    ensures Recorded(Act(n, a).st.h, r.num)
    ensures Matches(a.snap, a.acks) ==> Act(n, a).st.sp.mark >= a.acks.value.mark
  {
    var ops, st := Replayed(a.replay), Start(a.onApply, 0);
    hide Recorded;
    hide GoodState;
    hide Recovered;
    var i :| 0 <= i < |a.replay| && a.replay[i] == r;
    assert ops[i] in ops && ops[i].num == r.num;
    StartIsGood(a.onApply, 0);
    if Matches(a.snap, a.acks) {
      var op := Op.Restored(a.acks.value.mark);
      StepKeeps(st, op);
      RunSplits(st, op, ops);
      ReplayRecords(Step(st, op), ops, r.num);
    } else {
      assert Restored(a.snap, a.acks) + ops == ops;
      ReplayRecords(st, ops, r.num);
    }
  }
}
