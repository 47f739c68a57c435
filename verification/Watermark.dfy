/** One numbering space of the delete-acknowledgement plane (src/clack.c), as a value:
    the contiguous applied mark, the confirmed (applied and durable) mark, the seqs held
    ahead of the mark, and the short queue of (mark, WAL maximum) pairs awaiting a sync.

    `History` is the independent account a space is judged against: which seqs were
    recorded, with which WAL seq, and how far a floor or a restore vouches for. */
module Watermark {

  const WINDOW: nat := 4096
  const PENDING: nat := 16

  datatype Pair = Pair(upto: nat, w: nat)

  datatype Space = Space(
    mark: nat,        // applied: all of 1..mark is recorded
    dmark: nat,       // confirmed: all of 1..dmark is durable too
    hi: nat,          // the largest number offered
    wmax: nat,        // bounds the WAL seqs of 1..mark
    wahead: nat,      // bounds the WAL seqs of `ahead`
    pend: seq<Pair>,  // marks waiting for a sync, ascending
    ahead: set<nat>)  // recorded seqs above the mark

  datatype Outcome = New | Dup | Far

  const EMPTY := Space(0, 0, 0, 0, 0, [], {})

  // ---- the operations of one space, as functions ----

  function Max(a: nat, b: nat): nat { if a < b then b else a }

  /** The mark steps on as long as its successor is in the set. */
  function Absorb(mark: nat, ahead: set<nat>): (nat, set<nat>)
    decreases |ahead|
  {
    if mark + 1 in ahead then Absorb(mark + 1, ahead - {mark + 1}) else (mark, ahead)
  }

  /** After a move of the mark: dmark follows, or the pair (mark, wmax) joins or replaces the last. */
  function Confirm(sp: Space, onApply: bool, synced: nat): Space {
    if onApply || sp.wmax <= synced then
      sp.(dmark := sp.mark, pend := [])
    else
      var n := |sp.pend|;
      if n > 0 && (sp.pend[n - 1].w == sp.wmax || n == PENDING) then
        sp.(pend := sp.pend[n - 1 := Pair(sp.mark, sp.wmax)])
      else
        sp.(pend := sp.pend + [Pair(sp.mark, sp.wmax)])
  }

  /** Seq mark + 1 recorded with WAL seq w. */
  function Advance(sp: Space, w: nat): Space {
    var (mark', ahead') := Absorb(sp.mark + 1, sp.ahead);
    var wmax' := Max(Max(sp.wmax, w), if mark' > sp.mark + 1 then sp.wahead else 0);
    sp.(mark := mark', ahead := ahead', wmax := wmax', wahead := if ahead' == {} then 0 else sp.wahead)
  }

  function Apply(sp: Space, onApply: bool, synced: nat, num: nat, w: nat): (Space, Outcome)
    requires num > 0
  {
    if num <= sp.mark || num in sp.ahead then (sp, Dup)
    else
      var seen := sp.(hi := Max(sp.hi, num));
      if num - sp.mark > WINDOW then (seen, Far)
      else if num != sp.mark + 1 then
        (seen.(ahead := sp.ahead + {num}, wahead := Max(sp.wahead, w)), New)
      else (Confirm(Advance(seen, w), onApply, synced), New)
  }

  /** How many pairs at the front of the queue the sync covers. */
  function Covered(pend: seq<Pair>, synced: nat): (k: nat)
    ensures k <= |pend|
  {
    if pend != [] && pend[0].w <= synced then 1 + Covered(pend[1..], synced) else 0
  }

  function RaiseOver(dmark: nat, pairs: seq<Pair>): nat {
    if pairs == [] then dmark
    else Max(RaiseOver(dmark, pairs[..|pairs| - 1]), pairs[|pairs| - 1].upto)
  }

  function Sync(sp: Space, synced: nat): Space {
    var k := Covered(sp.pend, synced);
    sp.(dmark := RaiseOver(sp.dmark, sp.pend[..k]), pend := sp.pend[k..])
  }

  function Beyond(pend: seq<Pair>, floor: nat): seq<Pair> {
    if pend == [] then []
    else Beyond(pend[..|pend| - 1], floor)
         + if pend[|pend| - 1].upto > floor then [pend[|pend| - 1]] else []
  }

  function Above(ahead: set<nat>, floor: nat): set<nat> { set s | s in ahead && s > floor }

  /** 1..floor is vouched for; the mark goes on from there. */
  function Raise(sp: Space, floor: nat): Space {
    var (mark', ahead') := Absorb(floor, Above(sp.ahead, floor));
    sp.(mark := mark', ahead := ahead', hi := Max(sp.hi, floor), dmark := Max(sp.dmark, floor),
        pend := Beyond(sp.pend, floor),
        wmax := if mark' > floor then Max(sp.wmax, sp.wahead) else sp.wmax,
        wahead := if ahead' == {} then 0 else sp.wahead)
  }

  function Floor(sp: Space, onApply: bool, synced: nat, floor: nat): (Space, Outcome) {
    if floor <= sp.mark then (sp, Dup)
    else
      var raised := Raise(sp, floor);
      (if raised.mark > floor then Confirm(raised, onApply, synced) else raised, New)
  }

  function Restore(mark: nat): Space { Space(mark, mark, mark, 0, 0, [], {}) }

  // ---- the account a space is judged against ----

  /** `rec` maps every seq recorded to its WAL seq; a floor or restore vouches for 1..base;
      `top` is the highest seq offered, or vouched for, since the last restore. */
  datatype History = History(rec: map<nat, nat>, base: nat, top: nat)

  const NOTHING := History(map[], 0, 0)

  predicate Recorded(h: History, s: nat) { 1 <= s <= h.base || s in h.rec }

  /** Applied here with its WAL record synced - or vouched for by a floor or restore. */
  predicate Held(h: History, onApply: bool, synced: nat, s: nat) {
    1 <= s <= h.base || (s in h.rec && (onApply || h.rec[s] <= synced))
  }

  /** m is the end of the longest prefix 1..m of the recorded seqs. */
  ghost predicate LongestPrefix(h: History, m: nat) {
    && (forall s :: 1 <= s <= m ==> Recorded(h, s))
    && !Recorded(h, m + 1)
  }

  /** Some recorded seq has a WAL seq at least w: w is not invented. */
  ghost predicate Earned(h: History, w: nat) { w == 0 || exists s :: s in h.rec && h.rec[s] >= w }

  ghost predicate WindowOk(mark: nat, hi: nat, ahead: set<nat>, h: History) {
    && h.base <= mark <= hi == h.top
    && 0 !in h.rec
    && mark + 1 !in h.rec
    && (forall s :: h.base < s <= mark ==> s in h.rec)
    && (forall s :: s in ahead <==> s in h.rec && s > mark)
    && (forall s :: s in ahead ==> s <= mark + WINDOW)
    && (forall s :: s in h.rec ==> s <= hi)
  }

  /** Every recorded seq above the base and at most `upto` has a WAL seq of at most w. */
  ghost predicate Within(h: History, upto: nat, w: nat) {
    forall s :: s in h.rec && h.base < s <= upto ==> h.rec[s] <= w
  }

  ghost predicate MaximaOk(mark: nat, ahead: set<nat>, wmax: nat, wahead: nat, h: History) {
    && Within(h, mark, wmax)
    && (forall s :: s in ahead && s in h.rec ==> h.rec[s] <= wahead)
    && Earned(h, wmax) && Earned(h, wahead)
  }

  ghost predicate Ascending(pend: seq<Pair>) {
    forall i, j :: 0 <= i < j < |pend| ==> pend[i].upto < pend[j].upto && pend[i].w < pend[j].w
  }

  /** Each waiting pair is past the sync, and covers what it says it covers. */
  ghost predicate Waiting(pend: seq<Pair>, h: History, synced: nat) {
    forall p :: p in pend ==> synced < p.w && Within(h, p.upto, p.w)
  }

  ghost predicate QueueOk(mark: nat, dmark: nat, wmax: nat, pend: seq<Pair>, h: History,
                          onApply: bool, synced: nat)
  {
    && |pend| <= PENDING
    && h.base <= dmark <= mark
    && (onApply || Within(h, dmark, synced))
    && (pend == [] ==> dmark == mark)
    && (pend != [] ==> !onApply && dmark < pend[0].upto && pend[|pend| - 1] == Pair(mark, wmax))
    && Ascending(pend)
    && Waiting(pend, h, synced)
  }

  /** What every step keeps. */
  ghost predicate Good(sp: Space, h: History, onApply: bool, synced: nat) {
    && WindowOk(sp.mark, sp.hi, sp.ahead, h)
    && MaximaOk(sp.mark, sp.ahead, sp.wmax, sp.wahead, h)
    && QueueOk(sp.mark, sp.dmark, sp.wmax, sp.pend, h, onApply, synced)
  }

  // ---- runs ----

  datatype Op = Applied(num: nat, w: nat) | Synced(w: nat) | Floored(floor: nat) | Restored(mark: nat)

  datatype State = State(sp: Space, h: History, onApply: bool, synced: nat)

  /** An empty space with an empty account. */
  function Start(onApply: bool, synced: nat): State { State(EMPTY, NOTHING, onApply, synced) }

  function Noted(h: History, num: nat, w: nat, out: Outcome): History {
    var top := Max(h.top, num);
    match out
    case New => h.(rec := h.rec[num := w], top := top)
    case Far => h.(top := top)
    case Dup => h
  }

  function Step(st: State, op: Op): State {
    match op
    case Applied(num, w) =>
      if num == 0 then st
      else
        var (sp', out) := Apply(st.sp, st.onApply, st.synced, num, w);
        st.(sp := sp', h := Noted(st.h, num, w, out))
    case Synced(w) =>
      if w <= st.synced then st else st.(sp := Sync(st.sp, w), synced := w)
    case Floored(floor) =>
      var (sp', out) := Floor(st.sp, st.onApply, st.synced, floor);
      if out == Dup then st
      else st.(sp := sp', h := st.h.(base := floor, top := Max(st.h.top, floor)))
    case Restored(mark) =>
      st.(sp := Restore(mark), h := History(map[], mark, mark))
  }

  function Run(st: State, ops: seq<Op>): State {
    if ops == [] then st else Step(Run(st, ops[..|ops| - 1]), ops[|ops| - 1])
  }

  ghost predicate GoodState(st: State) { Good(st.sp, st.h, st.onApply, st.synced) }

  // ---- what the parts do ----

  lemma {:induction false} AbsorbRuns(mark: nat, ahead: set<nat>)
    requires forall s :: s in ahead ==> s > mark
    ensures var (m, a) := Absorb(mark, ahead);
            && mark <= m && m + 1 !in ahead
            && (forall s :: mark < s <= m ==> s in ahead)
            && (forall s :: s in a <==> s in ahead && s > m)
    decreases |ahead|
  {
    if mark + 1 in ahead {
      var rest := ahead - {mark + 1};
      AbsorbRuns(mark + 1, rest);
      assert forall s :: s in ahead <==> s == mark + 1 || s in rest;
    }
  }

  /** A pair for the mark goes on the end of a queue that is right so far. */
  lemma PushKeeps(kept: seq<Pair>, mark: nat, dmark: nat, wmax: nat, h: History, synced: nat)
    requires Ascending(kept) && Waiting(kept, h, synced) && |kept| < PENDING
    requires h.base <= dmark < mark && Within(h, dmark, synced)
    requires Within(h, mark, wmax) && synced < wmax
    requires kept != [] ==> dmark < kept[0].upto && kept[|kept| - 1].upto < mark && kept[|kept| - 1].w < wmax
    ensures QueueOk(mark, dmark, wmax, kept + [Pair(mark, wmax)], h, false, synced)
  {
    var pend := kept + [Pair(mark, wmax)];
    assert forall p :: p in pend ==> p in kept || p == Pair(mark, wmax);
  }

  lemma DropLastKeeps(pend: seq<Pair>, h: History, synced: nat)
    requires pend != [] && Ascending(pend) && Waiting(pend, h, synced)
    ensures var kept := pend[..|pend| - 1];
            Ascending(kept) && Waiting(kept, h, synced)
  {
    assert forall p :: p in pend[..|pend| - 1] ==> p in pend;
  }

  /** Confirm keeps the queue right when the mark moved up from `mark0`. */
  lemma ConfirmKeeps(sp: Space, h: History, onApply: bool, synced: nat, mark0: nat, wmax0: nat)
    requires Within(h, sp.mark, sp.wmax)
    requires QueueOk(mark0, sp.dmark, wmax0, sp.pend, h, onApply, synced)
    requires mark0 < sp.mark && wmax0 <= sp.wmax
    ensures var c := Confirm(sp, onApply, synced);
            QueueOk(c.mark, c.dmark, c.wmax, c.pend, h, onApply, synced)
  {
    if onApply || sp.wmax <= synced {
      assert onApply || Within(h, sp.mark, synced);
    } else {
      var n := |sp.pend|;
      if n > 0 && (sp.pend[n - 1].w == sp.wmax || n == PENDING) {
        var kept := sp.pend[..n - 1];
        assert Confirm(sp, onApply, synced).pend == kept + [Pair(sp.mark, sp.wmax)];
        DropLastKeeps(sp.pend, h, synced);
        PushKeeps(kept, sp.mark, sp.dmark, sp.wmax, h, synced);
      } else {
        PushKeeps(sp.pend, sp.mark, sp.dmark, sp.wmax, h, synced);
      }
    }
  }

  lemma NotedEarns(h: History, num: nat, w: nat)
    requires num !in h.rec
    ensures var h' := Noted(h, num, w, New);
            && Earned(h', w)
            && forall v :: Earned(h, v) ==> Earned(h', v)
  {
    var h' := Noted(h, num, w, New);
    assert num in h'.rec;
    assert forall s :: s in h.rec ==> s in h'.rec && h'.rec[s] == h.rec[s];
  }

  /** Recording a seq above the mark does not disturb what waits below it. */
  lemma NotedQueue(sp: Space, h: History, onApply: bool, synced: nat, num: nat, w: nat)
    requires QueueOk(sp.mark, sp.dmark, sp.wmax, sp.pend, h, onApply, synced)
    requires sp.mark < num
    ensures QueueOk(sp.mark, sp.dmark, sp.wmax, sp.pend, Noted(h, num, w, New), onApply, synced)
  {
    var h' := Noted(h, num, w, New);
    forall u: nat, v: nat | u <= sp.mark && Within(h, u, v) ensures Within(h', u, v) {
    }
    forall p | p in sp.pend ensures p.upto <= sp.mark {
      var i :| 0 <= i < |sp.pend| && sp.pend[i] == p;
    }
  }

  lemma ApplyAheadKeeps(sp: Space, h: History, onApply: bool, synced: nat, num: nat, w: nat)
    requires Good(sp, h, onApply, synced)
    requires sp.mark + 1 < num <= sp.mark + WINDOW && num !in sp.ahead
    ensures var (sp', out) := Apply(sp, onApply, synced, num, w);
            Good(sp', Noted(h, num, w, out), onApply, synced)
  {
    NotedEarns(h, num, w);
    NotedQueue(sp, h, onApply, synced, num, w);
  }

  lemma AdvanceWindow(sp: Space, h: History, w: nat)
    requires WindowOk(sp.mark, sp.hi, sp.ahead, h)
    ensures var a := Advance(sp, w);
            && WindowOk(a.mark, Max(sp.hi, sp.mark + 1), a.ahead, Noted(h, sp.mark + 1, w, New))
            && sp.mark < a.mark && sp.wmax <= a.wmax
  {
    AbsorbRuns(sp.mark + 1, sp.ahead);
    var a := Advance(sp, w);
    assert a.mark == sp.mark + 1 || a.mark in sp.ahead;
  }

  lemma AdvanceMaxima(sp: Space, h: History, w: nat)
    requires WindowOk(sp.mark, sp.hi, sp.ahead, h)
    requires MaximaOk(sp.mark, sp.ahead, sp.wmax, sp.wahead, h)
    ensures var a := Advance(sp, w);
            MaximaOk(a.mark, a.ahead, a.wmax, a.wahead, Noted(h, sp.mark + 1, w, New))
  {
    AbsorbRuns(sp.mark + 1, sp.ahead);
    NotedEarns(h, sp.mark + 1, w);
  }

  lemma ApplyNextKeeps(sp: Space, h: History, onApply: bool, synced: nat, w: nat)
    requires Good(sp, h, onApply, synced)
    ensures var (sp', out) := Apply(sp, onApply, synced, sp.mark + 1, w);
            Good(sp', Noted(h, sp.mark + 1, w, out), onApply, synced)
  {
    hide Confirm;
    hide QueueOk;
    var num := sp.mark + 1;
    var h' := Noted(h, num, w, New);
    var a := Advance(sp, w);
    AdvanceWindow(sp, h, w);
    AdvanceMaxima(sp, h, w);
    NotedQueue(sp, h, onApply, synced, num, w);
    assert Advance(sp.(hi := Max(sp.hi, num)), w) == a.(hi := Max(sp.hi, num));
    ConfirmKeeps(a.(hi := Max(sp.hi, num)), h', onApply, synced, sp.mark, sp.wmax);
    ConfirmFrame(a.(hi := Max(sp.hi, num)), onApply, synced);
  }

  /** Confirming touches the confirmed mark and the queue only. */
  lemma ConfirmFrame(sp: Space, onApply: bool, synced: nat)
    ensures var c := Confirm(sp, onApply, synced); c == sp.(dmark := c.dmark, pend := c.pend)
  {
  }

  /** A seq beyond the window is only seen. */
  lemma FarKeeps(sp: Space, h: History, onApply: bool, synced: nat, num: nat)
    requires Good(sp, h, onApply, synced) && num > sp.mark
    ensures Good(sp.(hi := Max(sp.hi, num)), h.(top := Max(h.top, num)), onApply, synced)
  {
    var h' := h.(top := Max(h.top, num));
    assert forall u, v :: Within(h, u, v) ==> Within(h', u, v);
    assert forall v :: Earned(h, v) ==> Earned(h', v);
  }

  lemma ApplyKeeps(sp: Space, h: History, onApply: bool, synced: nat, num: nat, w: nat)
    requires Good(sp, h, onApply, synced) && num > 0
    ensures var (sp', out) := Apply(sp, onApply, synced, num, w);
            Good(sp', Noted(h, num, w, out), onApply, synced)
  {
    hide Good;
    hide Advance;
    hide Confirm;
    if num <= sp.mark || num in sp.ahead {
    } else if num == sp.mark + 1 {
      ApplyNextKeeps(sp, h, onApply, synced, w);
    } else if num - sp.mark <= WINDOW {
      ApplyAheadKeeps(sp, h, onApply, synced, num, w);
    } else {
      FarKeeps(sp, h, onApply, synced, num);
    }
  }

  lemma {:induction false} CoveredSplits(pend: seq<Pair>, synced: nat)
    requires Ascending(pend)
    ensures var k := Covered(pend, synced);
            && (forall i :: 0 <= i < k ==> pend[i].w <= synced)
            && (forall i :: k <= i < |pend| ==> pend[i].w > synced)
  {
    if pend != [] && pend[0].w <= synced {
      CoveredSplits(pend[1..], synced);
    }
  }

  lemma {:induction false} RaiseOverLast(dmark: nat, pairs: seq<Pair>)
    requires Ascending(pairs)
    requires pairs != [] ==> dmark < pairs[0].upto
    ensures RaiseOver(dmark, pairs) == if pairs == [] then dmark else pairs[|pairs| - 1].upto
  {
    if pairs != [] {
      RaiseOverLast(dmark, pairs[..|pairs| - 1]);
    }
  }

  lemma SyncKeeps(sp: Space, h: History, onApply: bool, synced: nat, to: nat)
    requires QueueOk(sp.mark, sp.dmark, sp.wmax, sp.pend, h, onApply, synced) && synced < to
    ensures var r := Sync(sp, to);
            && QueueOk(r.mark, r.dmark, r.wmax, r.pend, h, onApply, to)
            && sp.dmark <= r.dmark
  {
    var k := Covered(sp.pend, to);
    CoveredSplits(sp.pend, to);
    RaiseOverLast(sp.dmark, sp.pend[..k]);
    SyncedBack(sp.pend, k, h, synced, to);
    if k > 0 {
      var last := sp.pend[k - 1];
      assert last in sp.pend;
      assert Within(h, last.upto, to);
    }
  }

  lemma SyncedBack(pend: seq<Pair>, k: nat, h: History, synced: nat, to: nat)
    requires k <= |pend| && Ascending(pend) && Waiting(pend, h, synced)
    requires forall i :: k <= i < |pend| ==> pend[i].w > to
    ensures Ascending(pend[k..]) && Waiting(pend[k..], h, to)
  {
    forall p | p in pend[k..] ensures p in pend && to < p.w {
    }
  }

  lemma {:induction false} BeyondIsEmpty(pend: seq<Pair>, floor: nat)
    requires forall p :: p in pend ==> p.upto <= floor
    ensures Beyond(pend, floor) == []
  {
    if pend != [] {
      BeyondIsEmpty(pend[..|pend| - 1], floor);
    }
  }

  /** A floor empties the queue: every waiting pair is at or below the old mark. */
  lemma RaiseClears(sp: Space, h: History, onApply: bool, synced: nat, floor: nat)
    requires QueueOk(sp.mark, sp.dmark, sp.wmax, sp.pend, h, onApply, synced) && sp.mark < floor
    ensures Raise(sp, floor).pend == [] && Raise(sp, floor).dmark == floor
  {
    assert forall p :: p in sp.pend ==> p.upto <= sp.mark;
    BeyondIsEmpty(sp.pend, floor);
  }

  function Vouched(h: History, floor: nat): History { h.(base := floor, top := Max(h.top, floor)) }

  lemma RaiseWindow(sp: Space, h: History, floor: nat)
    requires WindowOk(sp.mark, sp.hi, sp.ahead, h)
    requires MaximaOk(sp.mark, sp.ahead, sp.wmax, sp.wahead, h)
    requires sp.mark < floor
    ensures var r := Raise(sp, floor);
            && floor <= r.mark
            && WindowOk(r.mark, r.hi, r.ahead, Vouched(h, floor))
            && MaximaOk(r.mark, r.ahead, r.wmax, r.wahead, Vouched(h, floor))
  {
    var held := Above(sp.ahead, floor);
    AbsorbRuns(floor, held);
    var (m, a) := Absorb(floor, held);
    assert m == floor || m in held;
    forall s | floor < s <= m ensures s in h.rec && h.rec[s] <= sp.wahead {
      assert s in held;
    }
    var h' := Vouched(h, floor);
    assert Earned(h', sp.wmax) && Earned(h', sp.wahead);
  }

  lemma FlooredQueue(r: Space, h: History, onApply: bool, synced: nat)
    requires h.base == r.dmark <= r.mark && r.pend == [] && Within(h, r.mark, r.wmax)
    ensures var c := if r.mark > h.base then Confirm(r, onApply, synced) else r;
            QueueOk(c.mark, c.dmark, c.wmax, c.pend, h, onApply, synced)
  {
    if r.mark > h.base {
      ConfirmKeeps(r, h, onApply, synced, h.base, r.wmax);
    }
  }

  lemma FloorKeeps(sp: Space, h: History, onApply: bool, synced: nat, floor: nat)
    requires Good(sp, h, onApply, synced) && sp.mark < floor
    ensures var (r, out) := Floor(sp, onApply, synced, floor);
            && Good(r, Vouched(h, floor), onApply, synced)
            && sp.dmark <= r.dmark
  {
    RaiseWindow(sp, h, floor);
    RaiseClears(sp, h, onApply, synced, floor);
    FlooredQueue(Raise(sp, floor), Vouched(h, floor), onApply, synced);
  }

  lemma StepKeeps(st: State, op: Op)
    requires GoodState(st)
    ensures GoodState(Step(st, op))
    ensures !op.Restored? ==> st.sp.dmark <= Step(st, op).sp.dmark
  {
    hide Good;
    hide Apply;
    hide Sync;
    hide Raise;
    hide Confirm;
    match op
    case Applied(num, w) =>
      if num > 0 {
        ApplyKeeps(st.sp, st.h, st.onApply, st.synced, num, w);
        ApplyRaises(st.sp, st.h, st.onApply, st.synced, num, w);
      }
    case Synced(w) =>
      if w > st.synced { SyncGood(st.sp, st.h, st.onApply, st.synced, w); }
    case Floored(floor) =>
      if floor > st.sp.mark { FloorKeeps(st.sp, st.h, st.onApply, st.synced, floor); }
    case Restored(mark) => RestoreGood(mark, st.onApply, st.synced);
  }

  lemma SyncGood(sp: Space, h: History, onApply: bool, synced: nat, to: nat)
    requires Good(sp, h, onApply, synced) && synced < to
    ensures Good(Sync(sp, to), h, onApply, to) && sp.dmark <= Sync(sp, to).dmark
  {
    hide QueueOk;
    hide WindowOk;
    hide MaximaOk;
    SyncKeeps(sp, h, onApply, synced, to);
  }

  lemma RestoreGood(mark: nat, onApply: bool, synced: nat)
    ensures Good(Restore(mark), History(map[], mark, mark), onApply, synced)
  {
  }

  lemma ApplyRaises(sp: Space, h: History, onApply: bool, synced: nat, num: nat, w: nat)
    requires Good(sp, h, onApply, synced) && num > 0
    ensures sp.dmark <= Apply(sp, onApply, synced, num, w).0.dmark
  {
    AbsorbRuns(sp.mark + 1, sp.ahead);
  }

  lemma {:induction false} RunKeeps(st: State, ops: seq<Op>)
    requires GoodState(st)
    ensures GoodState(Run(st, ops))
  {
    if ops != [] {
      RunKeeps(st, ops[..|ops| - 1]);
      StepKeeps(Run(st, ops[..|ops| - 1]), ops[|ops| - 1]);
    }
  }

  lemma StartIsGood(onApply: bool, synced: nat)
    ensures GoodState(Start(onApply, synced))
  {
  }

  // ---- the results ----

  /** Soundness: after any run, in any order and with any duplication of calls, every seq at or
      below the confirmed mark is held durably, or was vouched for. */
  lemma ConfirmedIsDurable(onApply: bool, synced: nat, ops: seq<Op>, s: nat)
    requires 1 <= s <= Run(Start(onApply, synced), ops).sp.dmark
    ensures var st := Run(Start(onApply, synced), ops); Held(st.h, onApply, st.synced, s)
  {
    StartIsGood(onApply, synced);
    RunKeeps(Start(onApply, synced), ops);
    RunFixed(Start(onApply, synced), ops);
  }

  lemma {:induction false} RunFixed(st: State, ops: seq<Op>)
    ensures Run(st, ops).onApply == st.onApply && Run(st, ops).synced >= st.synced
  {
    if ops != [] {
      RunFixed(st, ops[..|ops| - 1]);
    }
  }

  /** Tightness: dmark equals mark exactly when no pair waits, and so whenever the sync has reached
      the folded maximum or every WAL seq recorded. */
  lemma ConfirmedIsTight(onApply: bool, synced: nat, ops: seq<Op>)
    ensures var st := Run(Start(onApply, synced), ops);
            && st.sp.dmark <= st.sp.mark
            && (st.sp.dmark == st.sp.mark <==> st.sp.pend == [])
            && (onApply || st.sp.wmax <= st.synced ==> st.sp.dmark == st.sp.mark)
            && ((forall s :: s in st.h.rec ==> st.h.rec[s] <= st.synced) ==> st.sp.dmark == st.sp.mark)
  {
    StartIsGood(onApply, synced);
    RunKeeps(Start(onApply, synced), ops);
    RunFixed(Start(onApply, synced), ops);
    var st := Run(Start(onApply, synced), ops);
    if st.sp.pend != [] {
      var last := st.sp.pend[|st.sp.pend| - 1];
      assert last in st.sp.pend;
    }
  }

  /** The confirmed mark never falls without a restore. */
  lemma {:induction false} ConfirmedNeverFalls(st: State, ops: seq<Op>)
    requires GoodState(st) && forall op :: op in ops ==> !op.Restored?
    ensures st.sp.dmark <= Run(st, ops).sp.dmark
  {
    if ops != [] {
      var front := ops[..|ops| - 1];
      assert forall op :: op in front ==> op in ops;
      ConfirmedNeverFalls(st, front);
      RunKeeps(st, front);
      StepKeeps(Run(st, front), ops[|ops| - 1]);
    }
  }

  /** The window refines the set of recorded seqs: after any run the mark ends its longest
      prefix, the held seqs are exactly the recorded ones above it and fit the window, `hi` is
      the highest offered, and the answer to the next call is settled by the set alone. */
  lemma WindowIsTheSet(onApply: bool, synced: nat, ops: seq<Op>, num: nat, w: nat)
    requires num > 0
    ensures var st := Run(Start(onApply, synced), ops);
            var out := Apply(st.sp, onApply, st.synced, num, w).1;
            && LongestPrefix(st.h, st.sp.mark)
            && (forall s: nat :: s in st.sp.ahead <==> Recorded(st.h, s) && s > st.sp.mark)
            && (forall s :: s in st.sp.ahead ==> s <= st.sp.mark + WINDOW)
            && st.sp.hi == st.h.top
            && (out == Dup <==> Recorded(st.h, num))
            && (out == Far <==> !Recorded(st.h, num) && num > st.sp.mark + WINDOW)
  {
    StartIsGood(onApply, synced);
    RunKeeps(Start(onApply, synced), ops);
  }

  // ---- gaps and their repair ----

  /** The end of the run of seqs not held that begins at `from`. */
  function RunEnd(sp: Space, from: nat): (to: nat)
    requires from <= sp.hi
    ensures from <= to <= sp.hi
    ensures forall s :: from < s <= to ==> s !in sp.ahead
    ensures to == sp.hi || to + 1 in sp.ahead
    decreases sp.hi - from
  {
    if from == sp.hi || from + 1 in sp.ahead then from else RunEnd(sp, from + 1)
  }

  /** The run of seqs not held right above the mark. */
  ghost predicate IsGap(sp: Space, from: nat, to: nat) {
    && from == sp.mark + 1 <= to <= sp.hi
    && (forall s :: from <= s <= to ==> s !in sp.ahead)
    && (to == sp.hi || to + 1 in sp.ahead)
  }

  /** The first maximal run of unrecorded seqs up to the highest seen. */
  ghost predicate FirstHole(h: History, from: nat, to: nat) {
    && 1 <= from <= to <= h.top
    && (forall s :: 1 <= s < from ==> Recorded(h, s))
    && (forall s :: from <= s <= to ==> !Recorded(h, s))
    && (to == h.top || Recorded(h, to + 1))
  }

  /** The gap of a space is the first hole of its account, and there is one exactly when hi is above
      the mark. */
  lemma GapIsTheFirstHole(st: State, from: nat, to: nat)
    requires GoodState(st)
    ensures IsGap(st.sp, from, to) <==> FirstHole(st.h, from, to)
    ensures st.sp.hi > st.sp.mark <==> exists f, t :: IsGap(st.sp, f, t)
  {
    if FirstHole(st.h, from, to) {
      assert st.sp.mark == 0 || Recorded(st.h, st.sp.mark);
      assert !Recorded(st.h, st.sp.mark + 1);
      assert !Recorded(st.h, from);
      assert from == st.sp.mark + 1;
      assert forall s: nat :: s > st.sp.mark ==> (s in st.sp.ahead <==> Recorded(st.h, s));
    }
    if st.sp.hi > st.sp.mark {
      assert IsGap(st.sp, st.sp.mark + 1, RunEnd(st.sp, st.sp.mark + 1));
    }
  }

  /** A gap answered: seqs from..to delivered in ascending order, each with some WAL seq. */
  function Deliver(st: State, from: nat, to: nat, ws: nat -> nat): State
    decreases 1 + to - from
  {
    if from > to then st else Deliver(Step(st, Applied(from, ws(from))), from + 1, to, ws)
  }

  lemma ApplyNextMoves(sp: Space, onApply: bool, synced: nat, num: nat, w: nat)
    requires 0 < num <= sp.mark + 1 && num <= sp.hi && (forall s :: s in sp.ahead ==> s > sp.mark + 1)
    ensures var r := Apply(sp, onApply, synced, num, w).0;
            num <= r.mark && sp.mark <= r.mark && r.hi == sp.hi
  {
    AbsorbRuns(sp.mark + 1, sp.ahead);
  }

  lemma AheadIsPast(sp: Space, h: History, onApply: bool, synced: nat)
    requires Good(sp, h, onApply, synced)
    ensures (forall s :: s in sp.ahead ==> s > sp.mark + 1) && sp.hi == h.top
  {
    hide QueueOk;
    hide MaximaOk;
  }

  lemma ApplyNextReaches(st: State, num: nat, w: nat)
    requires GoodState(st) && 0 < num <= st.sp.mark + 1 && num <= st.sp.hi
    ensures var r := Step(st, Applied(num, w));
            GoodState(r) && r.h.top == st.h.top && num <= r.sp.mark && st.sp.mark <= r.sp.mark
  {
    hide Good;
    hide Apply;
    StepKeeps(st, Applied(num, w));
    AheadIsPast(st.sp, st.h, st.onApply, st.synced);
    AheadIsPast(Step(st, Applied(num, w)).sp, Step(st, Applied(num, w)).h, st.onApply, st.synced);
    ApplyNextMoves(st.sp, st.onApply, st.synced, num, w);
  }

  lemma {:induction false} DeliverReaches(st: State, from: nat, to: nat, ws: nat -> nat)
    requires GoodState(st) && 0 < from <= st.sp.mark + 1 && to <= st.h.top
    ensures var r := Deliver(st, from, to, ws);
            && GoodState(r) && r.h.top == st.h.top
            && st.sp.mark <= r.sp.mark && (from <= to ==> to <= r.sp.mark)
    decreases 1 + to - from
  {
    if from <= to {
      ApplyNextReaches(st, from, ws(from));
      DeliverReaches(Step(st, Applied(from, ws(from))), from + 1, to, ws);
    }
  }

  /** Asking for the reported gap and delivering it, again and again: it ends - each round
      moves the mark - with every seq up to the highest seen recorded. */
  ghost function Repair(st: State, ws: nat -> nat): (r: State)
    requires GoodState(st)
    ensures GoodState(r) && r.h.top == st.h.top && r.sp.mark == r.sp.hi == st.h.top
    ensures forall s :: 1 <= s <= st.h.top ==> Recorded(r.h, s)
    decreases st.h.top - st.sp.mark
  {
    if st.sp.hi <= st.sp.mark then st
    else
      var from := st.sp.mark + 1;
      var to := RunEnd(st.sp, from);
      DeliverReaches(st, from, to, ws);
      Repair(Deliver(st, from, to, ws), ws)
  }
}
