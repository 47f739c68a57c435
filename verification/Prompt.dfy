/** How soon a mark is confirmed (src/clack.c): what any later sync will confirm, call by call, and over
    runs - a reference that knows neither the queue of waiting pairs nor how it merges. */
module Prompt {
  import opened Watermark

  /** The mark a sync through t would confirm. */
  function ConfirmedBy(sp: Space, t: nat): nat { Sync(sp, t).dmark }

  // ---- what one call does to it ----

  /** The last pair the sync covers is the mark it confirms. */
  lemma CoversUpTo(sp: Space, h: History, onApply: bool, synced: nat, t: nat, k: nat)
    requires QueueOk(sp.mark, sp.dmark, sp.wmax, sp.pend, h, onApply, synced) && k <= |sp.pend|
    requires k > 0 ==> sp.pend[k - 1].w <= t
    requires k < |sp.pend| ==> t < sp.pend[k].w
    ensures ConfirmedBy(sp, t) == if k == 0 then sp.dmark else sp.pend[k - 1].upto
  {
    hide Within;
    hide Waiting;
    CoveredSplits(sp.pend, t);
    assert Covered(sp.pend, t) == k;
    RaiseOverLast(sp.dmark, sp.pend[..k]);
  }

  /** A sync no later than the last confirms what is confirmed. */
  lemma ConfirmedNow(sp: Space, h: History, onApply: bool, synced: nat)
    requires QueueOk(sp.mark, sp.dmark, sp.wmax, sp.pend, h, onApply, synced)
    ensures ConfirmedBy(sp, synced) == sp.dmark
  {
    assert sp.pend != [] ==> sp.pend[0] in sp.pend;
    CoversUpTo(sp, h, onApply, synced, synced, 0);
  }

  /** Once everything folded is synced, the whole mark is confirmed. */
  lemma AllConfirmed(sp: Space, h: History, onApply: bool, synced: nat, t: nat)
    requires QueueOk(sp.mark, sp.dmark, sp.wmax, sp.pend, h, onApply, synced) && (onApply || sp.wmax <= t)
    ensures ConfirmedBy(sp, t) == sp.mark
  {
    CoversUpTo(sp, h, onApply, synced, t, |sp.pend|);
  }

  /** Behind a pair that waits for more than t, nothing changes for t. */
  lemma NotYet(sp: Space, h: History, synced: nat, mark0: nat, wmax0: nat, t: nat)
    requires Within(h, sp.mark, sp.wmax)
    requires QueueOk(mark0, sp.dmark, wmax0, sp.pend, h, false, synced)
    requires mark0 < sp.mark && wmax0 <= sp.wmax && synced <= t < sp.wmax && |sp.pend| < PENDING
    ensures ConfirmedBy(Confirm(sp, false, synced), t) == ConfirmedBy(sp, t)
  {
    var c := Confirm(sp, false, synced);
    ConfirmKeeps(sp, h, false, synced, mark0, wmax0);
    hide Within;
    hide Sync;
    var k := Covered(sp.pend, t);
    CoveredSplits(sp.pend, t);
    var was := sp.(mark := mark0, wmax := wmax0);
    CoversUpTo(was, h, false, synced, t, k);
    SameQueue(was, sp, t);
    assert forall i :: 0 <= i < k ==> c.pend[i] == sp.pend[i];
    CoversUpTo(c, h, false, synced, t, k);
  }

  /** With the queue full one mark is put off, the one that was waiting last. */
  lemma PutOff(sp: Space, h: History, synced: nat, mark0: nat, wmax0: nat, t: nat)
    requires Within(h, sp.mark, sp.wmax)
    requires QueueOk(mark0, sp.dmark, wmax0, sp.pend, h, false, synced)
    requires mark0 < sp.mark && wmax0 <= sp.wmax && synced <= t < sp.wmax && |sp.pend| == PENDING
    ensures wmax0 > synced
    ensures ConfirmedBy(Confirm(sp, false, synced), t) == ConfirmedBy(sp, if t < wmax0 then t else wmax0 - 1)
  {
    var c, n := Confirm(sp, false, synced), |sp.pend|;
    ConfirmKeeps(sp, h, false, synced, mark0, wmax0);
    hide Within;
    hide Sync;
    assert sp.pend[n - 1] in sp.pend;
    var u := if t < wmax0 then t else wmax0 - 1;
    var k := Covered(sp.pend, u);
    CoveredSplits(sp.pend, u);
    var was := sp.(mark := mark0, wmax := wmax0);
    CoversUpTo(was, h, false, synced, u, k);
    SameQueue(was, sp, u);
    assert k < n && forall i :: 0 <= i < n - 1 ==> c.pend[i] == sp.pend[i];
    assert t >= wmax0 ==> k == n - 1;
    CoversUpTo(c, h, false, synced, t, k);
  }

  /** The next in line, what it connects included, after the call. */
  lemma NextInTime(sp: Space, h: History, onApply: bool, synced: nat, w: nat, t: nat)
    requires Good(sp, h, onApply, synced) && synced <= t
    ensures var sp' := Apply(sp, onApply, synced, sp.mark + 1, w).0;
      && (onApply || sp'.wmax <= t ==> ConfirmedBy(sp', t) == sp'.mark)
      && (!onApply && t < sp'.wmax ==>
           ConfirmedBy(sp', t) ==
           if |sp.pend| < PENDING || t < sp.wmax then ConfirmedBy(sp, t) else ConfirmedBy(sp, Less(sp.wmax)))
  {
    hide Confirm;
    hide QueueOk;
    hide Sync;
    var num := sp.mark + 1;
    var h' := Noted(h, num, w, New);
    AdvanceWindow(sp, h, w);
    AdvanceMaxima(sp, h, w);
    NotedQueue(sp, h, onApply, synced, num, w);
    var seen := sp.(hi := Max(sp.hi, num));
    var a := Advance(seen, w);
    assert a == Advance(sp, w).(hi := seen.hi);
    var sp' := Confirm(a, onApply, synced);
    ConfirmKeeps(a, h', onApply, synced, sp.mark, sp.wmax);
    ConfirmFrame(a, onApply, synced);
    SameQueue(sp, a, t);
    if onApply || a.wmax <= t {
      AllConfirmed(sp', h', onApply, synced, t);
    } else if |sp.pend| < PENDING {
      NotYet(a, h', synced, sp.mark, sp.wmax, t);
    } else {
      FullIsFull(sp, h', onApply, synced);
      PutOff(a, h', synced, sp.mark, sp.wmax, t);
      SameQueue(sp, a, Less(sp.wmax));
    }
  }

  function Less(n: nat): nat { if n == 0 then 0 else n - 1 }

  lemma FullIsFull(sp: Space, h: History, onApply: bool, synced: nat)
    requires QueueOk(sp.mark, sp.dmark, sp.wmax, sp.pend, h, onApply, synced)
    ensures |sp.pend| <= PENDING
  {
  }

  lemma SameQueue(sp: Space, a: Space, t: nat)
    requires a.pend == sp.pend && a.dmark == sp.dmark
    ensures ConfirmedBy(a, t) == ConfirmedBy(sp, t)
  {
  }

  /** What an apply - any apply - does to what later syncs confirm: once the new maximum is synced, the new
      mark; before that nothing is confirmed sooner or later than without it, unless the queue was full and
      the mark moved. Then just the mark it moved from is put off, until the new one is confirmed. */
  lemma ApplyInTime(sp: Space, h: History, onApply: bool, synced: nat, num: nat, w: nat, t: nat)
    requires Good(sp, h, onApply, synced) && num > 0 && synced <= t
    ensures var sp' := Apply(sp, onApply, synced, num, w).0;
      && ConfirmedBy(sp, t) <= sp.mark <= sp'.mark
      && (onApply || sp'.wmax <= t ==> ConfirmedBy(sp', t) == sp'.mark)
      && (!onApply && t < sp'.wmax ==>
           ConfirmedBy(sp', t) ==
           if |sp.pend| < PENDING || t < sp.wmax || sp'.mark == sp.mark then ConfirmedBy(sp, t)
           else ConfirmedBy(sp, Less(sp.wmax)))
  {
    hide Good;
    hide Confirm;
    hide Sync;
    hide QueueOk;
    ConfirmedAtMost(sp, h, onApply, synced, t);
    var sp' := Apply(sp, onApply, synced, num, w).0;
    if sp.mark + 1 == num && num !in sp.ahead {
      NextInTime(sp, h, onApply, synced, w, t);
      NextMoves(sp, h, onApply, synced, w);
    } else {
      assert sp' == sp.(hi := sp'.hi, ahead := sp'.ahead, wahead := sp'.wahead);
      SameQueue(sp, sp', t);
    }
  }

  lemma ConfirmedAtMost(sp: Space, h: History, onApply: bool, synced: nat, t: nat)
    requires Good(sp, h, onApply, synced) && synced <= t
    ensures ConfirmedBy(sp, t) <= sp.mark && (onApply || sp.wmax <= t ==> ConfirmedBy(sp, t) == sp.mark)
    ensures sp.dmark <= ConfirmedBy(sp, t)
  {
    if onApply || sp.wmax <= t { AllConfirmed(sp, h, onApply, synced, t); }
    if synced == t { ConfirmedNow(sp, h, onApply, synced); }
    else { SyncKeeps(sp, h, onApply, synced, t); }
  }

  lemma NextMoves(sp: Space, h: History, onApply: bool, synced: nat, w: nat)
    requires Good(sp, h, onApply, synced)
    ensures sp.mark < Apply(sp, onApply, synced, sp.mark + 1, w).0.mark
  {
    AdvanceWindow(sp, h, w);
  }

  /** A sync on the way changes nothing for a later one. */
  lemma SyncInTime(sp: Space, h: History, onApply: bool, synced: nat, u: nat, t: nat)
    requires QueueOk(sp.mark, sp.dmark, sp.wmax, sp.pend, h, onApply, synced) && synced < u <= t
    ensures ConfirmedBy(Sync(sp, u), t) == ConfirmedBy(sp, t)
  {
    hide QueueOk;
    hide Sync;
    var j := SyncFront(sp, h, onApply, synced, u);
    var k := SyncFront(sp, h, onApply, synced, t);
    SyncKeeps(sp, h, onApply, synced, u);
    var r := Sync(sp, u);
    assert j > 0 ==> sp.pend[j - 1].w <= t;
    assert j <= k && r.pend == sp.pend[j..];
    CoversUpTo(r, h, onApply, u, t, k - j);
  }

  lemma SyncFront(sp: Space, h: History, onApply: bool, synced: nat, u: nat) returns (k: nat)
    requires QueueOk(sp.mark, sp.dmark, sp.wmax, sp.pend, h, onApply, synced)
    ensures k <= |sp.pend| && Sync(sp, u) == sp.(dmark := if k == 0 then sp.dmark else sp.pend[k - 1].upto, pend := sp.pend[k..])
    ensures (forall i :: 0 <= i < k ==> sp.pend[i].w <= u) && (forall i :: k <= i < |sp.pend| ==> u < sp.pend[i].w)
  {
    k := Covered(sp.pend, u);
    CoveredSplits(sp.pend, u);
    RaiseOverLast(sp.dmark, sp.pend[..k]);
  }

  /** A floor above the mark leaves nothing waiting but what connects behind it. */
  lemma FlooredIs(sp: Space, h: History, onApply: bool, synced: nat, floor: nat)
    requires Good(sp, h, onApply, synced) && sp.mark < floor
    ensures var r := Floor(sp, onApply, synced, floor).0;
      && floor <= r.mark
      && (if r.mark == floor || onApply || r.wmax <= synced then r.pend == [] && r.dmark == r.mark
          else r.pend == [Pair(r.mark, r.wmax)] && r.dmark == floor)
  {
    RaiseWindow(sp, h, floor);
    RaiseClears(sp, h, onApply, synced, floor);
    hide Good;
    hide Raise;
    hide Vouched;
    hide WindowOk;
    hide MaximaOk;
    assert [] + [Pair(Raise(sp, floor).mark, Raise(sp, floor).wmax)] == [Pair(Raise(sp, floor).mark, Raise(sp, floor).wmax)];
  }

  /** The floor is confirmed at once, and what connects behind it with its maximum. */
  lemma FloorInTime(sp: Space, h: History, onApply: bool, synced: nat, floor: nat, t: nat)
    requires Good(sp, h, onApply, synced) && sp.mark < floor && synced <= t
    ensures var r := Floor(sp, onApply, synced, floor).0;
      floor <= r.mark && ConfirmedBy(r, t) == if onApply || r.wmax <= t then r.mark else floor
  {
    FlooredIs(sp, h, onApply, synced, floor);
    hide Good;
    hide Floor;
    var r := Floor(sp, onApply, synced, floor).0;
    OnePair(r, t);
  }

  lemma OnePair(r: Space, t: nat)
    ensures r.pend == [] ==> ConfirmedBy(r, t) == r.dmark
    ensures |r.pend| == 1 ==> ConfirmedBy(r, t) == if r.pend[0].w <= t then Max(r.dmark, r.pend[0].upto) else r.dmark
  {
    if |r.pend| == 1 {
      assert r.pend[1..] == [] && r.pend[..1] == r.pend && r.pend[..0] == [];
      assert RaiseOver(r.dmark, r.pend[..0]) == r.dmark;
    }
  }

  // ---- over runs ----

  /** Every mark reached since the last restore, with the maximum folded when it was; what a floor
      vouches for waits for nothing. */
  function Reached(st: State, ops: seq<Op>): set<Pair> {
    if ops == [] then {Here(st)}
    else
      var front, op := ops[..|ops| - 1], ops[|ops| - 1];
      Since(Run(st, front), op, Reached(st, front)) + {Here(Run(st, ops))}
  }

  function Here(st: State): Pair { Pair(st.sp.mark, st.sp.wmax) }

  function Since(was: State, op: Op, reached: set<Pair>): set<Pair> {
    match op
    case Restored(_) => {}
    case Floored(floor) => if floor > was.sp.mark then reached + {Pair(floor, 0)} else reached
    case _ => reached
  }

  /** d is the largest of these marks whose maximum is at most t. */
  ghost predicate IsLargest(reached: set<Pair>, onApply: bool, t: nat, d: nat) {
    && (exists p :: p in reached && p.upto == d && (onApply || p.w <= t))
    && (forall p :: p in reached && (onApply || p.w <= t) ==> p.upto <= d)
  }

  /** No call found sixteen pairs waiting. */
  ghost predicate NeverFull(st: State, ops: seq<Op>) {
    forall i :: 0 <= i < |ops| ==> |Run(st, ops[..i]).sp.pend| < PENDING
  }

  ghost predicate Exact(sp: Space, reached: set<Pair>, onApply: bool, synced: nat) {
    && (forall p :: p in reached ==> p.upto <= sp.mark)
    && (forall t: nat :: synced <= t ==> IsLargest(reached, onApply, t, ConfirmedBy(sp, t)))
  }

  /** One more mark reached, at least as large as the others. */
  lemma OneMore(reached: set<Pair>, onApply: bool, t: nat, d: nat, p: Pair, d': nat)
    requires IsLargest(reached, onApply, t, d) && forall q :: q in reached ==> q.upto <= p.upto
    requires d' == if onApply || p.w <= t then p.upto else d
    ensures IsLargest(reached + {p}, onApply, t, d')
  {
    if onApply || p.w <= t {
      assert p in reached + {p};
    } else {
      var q :| q in reached && q.upto == d && (onApply || q.w <= t);
      assert q in reached + {p};
    }
  }

  lemma AppliedExact(st: State, reached: set<Pair>, num: nat, w: nat)
    requires GoodState(st) && num > 0 && |st.sp.pend| < PENDING
    requires Exact(st.sp, reached, st.onApply, st.synced)
    ensures var sp' := Apply(st.sp, st.onApply, st.synced, num, w).0;
      Exact(sp', reached + {Pair(sp'.mark, sp'.wmax)}, st.onApply, st.synced)
  {
    hide Good;
    hide IsLargest;
    hide ConfirmedBy;
    hide Apply;
    var sp' := Apply(st.sp, st.onApply, st.synced, num, w).0;
    var p := Pair(sp'.mark, sp'.wmax);
    ApplyInTime(st.sp, st.h, st.onApply, st.synced, num, w, st.synced);
    forall t: nat | st.synced <= t ensures IsLargest(reached + {p}, st.onApply, t, ConfirmedBy(sp', t)) {
      ApplyInTime(st.sp, st.h, st.onApply, st.synced, num, w, t);
      OneMore(reached, st.onApply, t, ConfirmedBy(st.sp, t), p, ConfirmedBy(sp', t));
    }
  }

  lemma SyncedExact(st: State, reached: set<Pair>, u: nat)
    requires GoodState(st) && st.synced < u && Exact(st.sp, reached, st.onApply, st.synced)
    ensures var r := Sync(st.sp, u); Exact(r, reached + {Pair(r.mark, r.wmax)}, st.onApply, u)
  {
    hide IsLargest;
    var p, r := Pair(st.sp.mark, st.sp.wmax), Sync(st.sp, u);
    forall t: nat | u <= t ensures IsLargest(reached + {p}, st.onApply, t, ConfirmedBy(r, t)) {
      SyncInTime(st.sp, st.h, st.onApply, st.synced, u, t);
      ConfirmedAtMost(st.sp, st.h, st.onApply, st.synced, t);
      OneMore(reached, st.onApply, t, ConfirmedBy(st.sp, t), p, ConfirmedBy(r, t));
    }
  }

  lemma FlooredExact(st: State, reached: set<Pair>, floor: nat)
    requires GoodState(st) && st.sp.mark < floor && Exact(st.sp, reached, st.onApply, st.synced)
    ensures var r := Floor(st.sp, st.onApply, st.synced, floor).0;
      Exact(r, reached + {Pair(floor, 0)} + {Pair(r.mark, r.wmax)}, st.onApply, st.synced)
  {
    hide IsLargest;
    hide Sync;
    hide Raise;
    hide Confirm;
    var r := Floor(st.sp, st.onApply, st.synced, floor).0;
    var p, q := Pair(floor, 0), Pair(r.mark, r.wmax);
    FloorInTime(st.sp, st.h, st.onApply, st.synced, floor, st.synced);
    hide Good;
    hide Floor;
    forall t: nat | st.synced <= t ensures IsLargest(reached + {p} + {q}, st.onApply, t, ConfirmedBy(r, t)) {
      FloorInTime(st.sp, st.h, st.onApply, st.synced, floor, t);
      OneMore(reached, st.onApply, t, ConfirmedBy(st.sp, t), p, floor);
      OneMore(reached + {p}, st.onApply, t, floor, q, ConfirmedBy(r, t));
    }
  }

  lemma NothingExact(mark: nat, onApply: bool, synced: nat)
    ensures Exact(Restore(mark), {Pair(mark, 0)}, onApply, synced)
  {
    forall t: nat ensures IsLargest({Pair(mark, 0)}, onApply, t, ConfirmedBy(Restore(mark), t)) {
      assert Pair(mark, 0) in {Pair(mark, 0)};
    }
  }

  lemma StepExact(st: State, op: Op, reached: set<Pair>)
    requires GoodState(st) && |st.sp.pend| < PENDING && Exact(st.sp, reached, st.onApply, st.synced)
    ensures var now := Step(st, op);
      Exact(now.sp, Since(st, op, reached) + {Here(now)}, now.onApply, now.synced)
  {
    hide Good;
    hide Apply;
    hide Sync;
    hide Raise;
    hide Confirm;
    hide Exact;
    SameExact(st, reached);
    match op
    case Applied(num, w) =>
      if num > 0 { AppliedExact(st, reached, num, w); }
    case Synced(u) =>
      if u > st.synced { SyncedExact(st, reached, u); }
    case Floored(floor) =>
      if floor > st.sp.mark { FlooredExact(st, reached, floor); }
    case Restored(mark) =>
      NothingExact(mark, st.onApply, st.synced);
      assert {} + {Pair(mark, 0)} == {Pair(mark, 0)};
  }

  lemma SameExact(st: State, reached: set<Pair>)
    requires GoodState(st) && Exact(st.sp, reached, st.onApply, st.synced)
    ensures Exact(st.sp, reached + {Pair(st.sp.mark, st.sp.wmax)}, st.onApply, st.synced)
  {
    hide Good;
    hide IsLargest;
    hide ConfirmedBy;
    var p := Pair(st.sp.mark, st.sp.wmax);
    forall t: nat | st.synced <= t ensures IsLargest(reached + {p}, st.onApply, t, ConfirmedBy(st.sp, t)) {
      ConfirmedAtMost(st.sp, st.h, st.onApply, st.synced, t);
      OneMore(reached, st.onApply, t, ConfirmedBy(st.sp, t), p, ConfirmedBy(st.sp, t));
    }
  }

  lemma {:induction false} RunExact(onApply: bool, synced: nat, ops: seq<Op>)
    requires NeverFull(Start(onApply, synced), ops)
    ensures var st := Run(Start(onApply, synced), ops);
      GoodState(st) && Exact(st.sp, Reached(Start(onApply, synced), ops), st.onApply, st.synced)
  {
    hide Step;
    hide GoodState;
    hide Exact;
    var st0 := Start(onApply, synced);
    StartIsGood(onApply, synced);
    RunKeeps(st0, ops);
    if ops == [] {
      NothingExact(0, onApply, synced);
    } else {
      var front := ops[..|ops| - 1];
      assert forall i :: 0 <= i < |front| ==> front[..i] == ops[..i];
      RunExact(onApply, synced, front);
      StepExact(Run(st0, front), ops[|ops| - 1], Reached(st0, front));
    }
  }

  /** Confirmed is exact: in every run that never found the queue full, dmark is the largest mark ever
      reached whose folded maximum the WAL is synced through. */
  lemma ConfirmedIsExact(onApply: bool, synced: nat, ops: seq<Op>)
    requires NeverFull(Start(onApply, synced), ops)
    ensures var st := Run(Start(onApply, synced), ops);
      IsLargest(Reached(Start(onApply, synced), ops), onApply, st.synced, st.sp.dmark)
  {
    var st := Run(Start(onApply, synced), ops);
    RunExact(onApply, synced, ops);
    RunFixed(Start(onApply, synced), ops);
    ConfirmedNow(st.sp, st.h, st.onApply, st.synced);
    hide GoodState;
    hide Sync;
  }

  lemma {:induction false} StaysReached(st: State, ops: seq<Op>, i: nat)
    requires i <= |ops| && forall k :: i <= k < |ops| ==> !ops[k].Restored?
    ensures Here(Run(st, ops[..i])) in Reached(st, ops)
    decreases |ops|
  {
    if i == |ops| {
      assert ops[..i] == ops;
    } else {
      var front := ops[..|ops| - 1];
      StaysReached(st, front, i);
      assert front[..i] == ops[..i];
    }
  }

  /** Prompt: whatever came out of order, a mark once reached is confirmed as soon as the WAL is synced
      through all that had been recorded by then. */
  lemma ConfirmedIsPrompt(onApply: bool, synced: nat, ops: seq<Op>, i: nat)
    requires NeverFull(Start(onApply, synced), ops) && i <= |ops| && forall k :: i <= k < |ops| ==> !ops[k].Restored?
    ensures var at, now := Run(Start(onApply, synced), ops[..i]), Run(Start(onApply, synced), ops);
      (onApply || forall s :: s in at.h.rec ==> at.h.rec[s] <= now.synced) ==> at.sp.mark <= now.sp.dmark
  {
    var st := Start(onApply, synced);
    var at, now := Run(st, ops[..i]), Run(st, ops);
    StartIsGood(onApply, synced);
    RunKeeps(st, ops[..i]);
    ConfirmedIsExact(onApply, synced, ops);
    StaysReached(st, ops, i);
    assert Earned(at.h, at.sp.wmax);
    hide Good;
    hide Run;
    if forall s :: s in at.h.rec ==> at.h.rec[s] <= now.synced { assert at.sp.wmax <= now.synced; }
  }

  // ---- when everything comes in order ----

  /** Nothing comes before its turn, nothing is vouched for. */
  ghost predicate InTurn(st: State, ops: seq<Op>) {
    forall i :: 0 <= i < |ops| ==>
      ops[i].Synced? || (ops[i].Applied? && ops[i].num <= Run(st, ops[..i]).sp.mark + 1)
  }

  /** v is the largest WAL seq of 1..m. */
  ghost predicate Tight(rec: map<nat, nat>, m: nat, v: nat) {
    && (forall s :: 1 <= s <= m ==> s in rec && rec[s] <= v)
    && (v == 0 || exists s :: 1 <= s <= m && s in rec && rec[s] == v)
  }

  /** Every mark up to the present one was reached, with the largest WAL seq below it. */
  ghost predicate OneByOne(st: State, reached: set<Pair>) {
    && st.sp.ahead == {} && st.sp.wahead == 0 && Tight(st.h.rec, st.sp.mark, st.sp.wmax)
    && (forall p :: p in reached ==> p.upto <= st.sp.mark && Tight(st.h.rec, p.upto, p.w))
    && (forall m: nat :: m <= st.sp.mark ==> Among(reached, m))
  }

  ghost predicate Among(reached: set<Pair>, m: nat) { exists v :: Pair(m, v) in reached }

  lemma TightStays(rec: map<nat, nat>, m: nat, v: nat, num: nat, w: nat)
    requires Tight(rec, m, v) && num > m
    ensures Tight(rec[num := w], m, v)
  {
    if v != 0 {
      var s :| 1 <= s <= m && s in rec && rec[s] == v;
      assert s in rec[num := w] && rec[num := w][s] == v;
    }
  }

  lemma TightGrows(rec: map<nat, nat>, m: nat, v: nat, w: nat)
    requires Tight(rec, m, v)
    ensures Tight(rec[m + 1 := w], m + 1, Max(v, w))
  {
    TightStays(rec, m, v, m + 1, w);
    var rec' := rec[m + 1 := w];
    if Max(v, w) == w { assert m + 1 in rec' && rec'[m + 1] == w; }
    else {
      var s :| 1 <= s <= m && s in rec' && rec'[s] == v;
    }
  }

  lemma NextOneByOne(st: State, w: nat, reached: set<Pair>)
    requires OneByOne(st, reached)
    ensures var now := Step(st, Applied(st.sp.mark + 1, w)); OneByOne(now, reached + {Here(now)})
  {
    var num := st.sp.mark + 1;
    var now := Step(st, Applied(num, w));
    assert Absorb(num, {}) == (num, {});
    ConfirmFrame(Advance(st.sp.(hi := Max(st.sp.hi, num)), w), st.onApply, st.synced);
    hide Confirm;
    assert now.sp.mark == num && now.sp.wmax == Max(st.sp.wmax, w) && now.h.rec == st.h.rec[num := w];
    TightGrows(st.h.rec, st.sp.mark, st.sp.wmax, w);
    hide Tight;
    forall p | p in reached ensures Tight(now.h.rec, p.upto, p.w) { TightStays(st.h.rec, p.upto, p.w, num, w); }
    forall m: nat | m <= num ensures Among(reached + {Here(now)}, m) {
      if m < num {
        assert Among(reached, m);
        var v :| Pair(m, v) in reached;
        assert Pair(m, v) in reached + {Here(now)};
      } else {
        assert Pair(num, now.sp.wmax) in reached + {Here(now)};
      }
    }
  }

  lemma StillOneByOne(st: State, now: State, reached: set<Pair>)
    requires OneByOne(st, reached)
    requires now.sp == st.sp.(dmark := now.sp.dmark, pend := now.sp.pend, hi := now.sp.hi) && now.h.rec == st.h.rec
    ensures OneByOne(now, reached + {Here(now)})
  {
    hide Tight;
    forall m: nat | m <= now.sp.mark ensures Among(reached + {Here(now)}, m) {
      assert Among(reached, m);
      var v :| Pair(m, v) in reached;
      assert Pair(m, v) in reached + {Here(now)};
    }
  }

  lemma {:induction false} RunOneByOne(st: State, ops: seq<Op>)
    requires InTurn(st, ops) && OneByOne(st, {Here(st)})
    ensures OneByOne(Run(st, ops), Reached(st, ops))
    decreases |ops|
  {
    if ops != [] {
      hide OneByOne;
      var front, op := ops[..|ops| - 1], ops[|ops| - 1];
      assert forall i :: 0 <= i < |front| ==> front[..i] == ops[..i];
      RunOneByOne(st, front);
      var was := Run(st, front);
      assert op.Synced? || (op.Applied? && op.num <= was.sp.mark + 1);
      hide InTurn;
      hide Step;
      if op.Applied? && op.num == was.sp.mark + 1 {
        NextOneByOne(was, op.w, Reached(st, front));
      } else {
        OldNews(was, op);
        StillOneByOne(was, Step(was, op), Reached(st, front));
      }
    }
  }

  /** A sync, or a delete that was applied before, moves no mark. */
  lemma OldNews(st: State, op: Op)
    requires op.Synced? || (op.Applied? && op.num <= st.sp.mark)
    ensures var now := Step(st, op);
      now.sp == st.sp.(dmark := now.sp.dmark, pend := now.sp.pend, hi := now.sp.hi) && now.h.rec == st.h.rec
  {
  }

  /** In order, and never full, the confirmed mark is exactly the longest prefix of deletes whose WAL
      records are all synced. */
  lemma InTurnIsExact(onApply: bool, synced: nat, ops: seq<Op>, m: nat)
    requires NeverFull(Start(onApply, synced), ops) && InTurn(Start(onApply, synced), ops)
    requires m <= Run(Start(onApply, synced), ops).sp.mark
    ensures var st := Run(Start(onApply, synced), ops);
      m <= st.sp.dmark <==> onApply || forall s :: 1 <= s <= m ==> s in st.h.rec && st.h.rec[s] <= st.synced
  {
    hide Run;
    hide Reached;
    hide OneByOne;
    hide IsLargest;
    hide NeverFull;
    hide InTurn;
    var st0 := Start(onApply, synced);
    NothingOneByOne(onApply, synced);
    RunOneByOne(st0, ops);
    ConfirmedIsExact(onApply, synced, ops);
    LargestIsLongest(Run(st0, ops), Reached(st0, ops), onApply, m);
  }

  lemma NothingOneByOne(onApply: bool, synced: nat)
    ensures var st0 := Start(onApply, synced); OneByOne(st0, {Here(st0)})
  {
    assert Pair(0, 0) in {Here(Start(onApply, synced))};
    assert Among({Here(Start(onApply, synced))}, 0);
  }

  lemma LargestIsLongest(st: State, reached: set<Pair>, onApply: bool, m: nat)
    requires OneByOne(st, reached) && IsLargest(reached, onApply, st.synced, st.sp.dmark) && m <= st.sp.mark
    ensures m <= st.sp.dmark <==> onApply || forall s :: 1 <= s <= m ==> s in st.h.rec && st.h.rec[s] <= st.synced
  {
    assert Among(reached, m);
    var v :| Pair(m, v) in reached;
    var p :| p in reached && p.upto == st.sp.dmark && (onApply || p.w <= st.synced);
    assert Tight(st.h.rec, p.upto, p.w) && Tight(st.h.rec, m, v);
  }

  /** What a delete that connects nothing adds to the maximum is its own WAL seq. */
  lemma OnlyItsOwn(sp: Space, h: History, onApply: bool, synced: nat, w: nat)
    requires Good(sp, h, onApply, synced) && !Recorded(h, sp.mark + 2)
    ensures var sp' := Apply(sp, onApply, synced, sp.mark + 1, w).0;
      sp'.mark == sp.mark + 1 && sp'.wmax == Max(sp.wmax, w) && sp'.ahead == sp.ahead
  {
    assert sp.mark + 2 !in sp.ahead;
    ConfirmFrame(Advance(sp.(hi := Max(sp.hi, sp.mark + 1)), w), onApply, synced);
    hide Confirm;
  }

  /** What a floor that connects nothing adds to the maximum is nothing. */
  lemma FloorAddsNothing(sp: Space, h: History, onApply: bool, synced: nat, floor: nat)
    requires Good(sp, h, onApply, synced) && sp.mark < floor && !Recorded(h, floor + 1)
    ensures var r := Floor(sp, onApply, synced, floor).0; r.mark == floor && r.wmax == sp.wmax
  {
    assert floor + 1 !in Above(sp.ahead, floor);
  }

  /** Once nothing is held ahead, nothing of what was is kept for later. */
  lemma {:induction false} AheadIsForgotten(onApply: bool, synced: nat, ops: seq<Op>)
    ensures var sp := Run(Start(onApply, synced), ops).sp; sp.ahead == {} ==> sp.wahead == 0
  {
    if ops != [] {
      AheadIsForgotten(onApply, synced, ops[..|ops| - 1]);
      ForgottenStep(Run(Start(onApply, synced), ops[..|ops| - 1]), ops[|ops| - 1]);
    }
  }

  lemma ForgottenStep(st: State, op: Op)
    requires st.sp.ahead == {} ==> st.sp.wahead == 0
    ensures var sp := Step(st, op).sp; sp.ahead == {} ==> sp.wahead == 0
  {
    hide Absorb;
    hide Covered;
    hide RaiseOver;
    hide Beyond;
    if op.Applied? && op.num > 0 { assert op.num in st.sp.ahead + {op.num}; }
  }
}
