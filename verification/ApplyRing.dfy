/** One apply ring of src/clapply.c: a byte ring shared by the thread that
    receives and one thread that applies, as an interleaving of their steps.  The producer's read of
    `head` is a step of its own, so it decides on a stale value; a record's bytes are copied one
    by one; the sleep and wake handshake is step by step too. */
module ApplyRing {
  import opened Bytes
  import opened Options
  import opened ApplyItem

  datatype Owner = Free | ByProducer | ByConsumer

  datatype Prod =
    | PIdle
    | PLoop(item: Item)            // about to read head
    | PHave(item: Item, h: nat)    // has read it
    | PWrite(item: Item, k: nat)   // k bytes of the item copied
    | PMark(item: Item, k: nat)    // k bytes of the wrap marker written
    | PStored                      // the tail stored; sleeping not yet looked at
    | PWake                        // saw it set: wants the mutex
    | PSignal                      // has the mutex

  datatype Cons =
    | CIdle
    | CSeen(t: nat)                // has loaded tail
    | CBusy(len: nat)              // on the item at head
    | CEmpty                       // saw nothing: spins, or goes to sleep
    | CLocked | CFlagged | CChecked | CWaiting | CWoken | CLeaving | CUnlock

  /** The shared ring and both threads; `pushed` and `done` record the items stored and the bytes
      found at each item when it was released, `wrap` where an unread wrap marker stands and
      `before` how many unread items lie before it. */
  datatype Ring = Ring(cap: nat, buf: seq<byte>, head: nat, tail: nat, sleeping: bool, mx: Owner,
                       prod: Prod, cons: Cons,
                       pushed: seq<Item>, done: seq<Item>, wrap: Option<nat>, before: nat)

  function Empty(cap: nat, buf: seq<byte>): Ring {
    Ring(cap, buf, 0, 0, false, Free, PIdle, CIdle, [], [], None, 0)
  }

  datatype Action =
    | Push(item: Item) | LoadHead | Decide | CopyByte | StoreTail | MarkByte | StoreWrap | GiveUp
    | LoadSleeping | LockToSignal | Signal
    | LoadTail | Look | Done | Again | Lock | Flag | Check | Wait | Wake | Relock | Unflag | Unlock

  /** Bytes free for the producer, one kept back so that full and empty differ. */
  function Room(head: nat, tail: nat, cap: nat): nat
  {
    if cap == 0 || head + cap <= tail then 0 else (head + cap - tail - 1) % cap
  }

  predicate Enabled(r: Ring, a: Action) {
    match a
    case Push(item) => r.prod.PIdle? && IsItem(item)
    case LoadHead => r.prod.PLoop?
    case Decide => r.prod.PHave?
    case CopyByte => r.prod.PWrite? && r.prod.k < |r.prod.item|
    case StoreTail => r.prod.PWrite? && r.prod.k == |r.prod.item|
    case MarkByte => r.prod.PMark? && r.prod.k < HDR && r.cap - r.tail >= HDR
    case StoreWrap => r.prod.PMark? && (r.prod.k == HDR || r.cap - r.tail < HDR)
    case GiveUp => r.prod.PLoop?                                 // the daemon stops; nothing is stored
    case LoadSleeping => r.prod.PStored?
    case LockToSignal => r.prod.PWake? && r.mx.Free?
    case Signal => r.prod.PSignal?
    case LoadTail => r.cons.CIdle?
    case Look => r.cons.CSeen?
    case Done => r.cons.CBusy?
    case Again => r.cons.CEmpty?
    case Lock => r.cons.CEmpty? && r.mx.Free?
    case Flag => r.cons.CLocked?
    case Check => r.cons.CFlagged?
    case Wait => r.cons.CChecked?
    case Wake => r.cons.CWaiting?                                // the timed wait ran out
    case Relock => r.cons.CWoken? && r.mx.Free?
    case Unflag => r.cons.CLeaving?
    case Unlock => r.cons.CUnlock?
  }

  function Unread(r: Ring): seq<Item> {
    if |r.done| <= |r.pushed| then r.pushed[|r.done|..] else []
  }

  /** Memory as the steps touch it; StepsStayInside shows that none is outside the buffer. */
  function Poke(buf: seq<byte>, p: nat, b: byte): seq<byte> { if p < |buf| then buf[p := b] else buf }

  function Peek(buf: seq<byte>, at: nat, n: nat): seq<byte> {
    if at + n <= |buf| then buf[at..at + n] else []
  }

  /** What the producer does with the head it read. */
  function Decided(r: Ring, item: Item, h: nat): Prod {
    var need := |item|;
    if r.tail + need < r.cap then
      if Room(h, r.tail, r.cap) >= need then PWrite(item, 0) else PLoop(item)
    else if h <= r.tail && h > 0 then PMark(item, 0)
    else PLoop(item)
  }

  /** The consumer, having seen head != tail: a wrap marker or too short an end starts over at 0,
      a header is an item. */
  function Looked(r: Ring, t: nat): Ring {
    if r.head == t then r.(cons := CEmpty)
    else if r.cap - r.head < HDR then r.(head := 0, wrap := None, cons := CIdle)
    else
      var h := Peek(r.buf, r.head, HDR);
      if |h| < HDR || UnLe(h[..4]) == 0 then r.(head := 0, wrap := None, cons := CIdle)
      else r.(cons := CBusy(DoneLen(h)))
  }

  function Act(r: Ring, a: Action): Ring
    requires Enabled(r, a)
  {
    match a
    case Push(item) => if |item| + HDR > r.cap then r else r.(prod := PLoop(item))
    case LoadHead => r.(prod := PHave(r.prod.item, r.head))
    case Decide => r.(prod := Decided(r, r.prod.item, r.prod.h))
    case CopyByte =>
      r.(buf := Poke(r.buf, r.tail + r.prod.k, r.prod.item[r.prod.k]), prod := PWrite(r.prod.item, r.prod.k + 1))
    case StoreTail =>
      r.(tail := r.tail + |r.prod.item|, pushed := r.pushed + [r.prod.item], prod := PStored)
    case MarkByte => r.(buf := Poke(r.buf, r.tail + r.prod.k, 0), prod := PMark(r.prod.item, r.prod.k + 1))
    case StoreWrap =>
      r.(tail := 0, wrap := Some(r.tail), before := |Unread(r)|, prod := PLoop(r.prod.item))
    case GiveUp => r.(prod := PIdle)
    case LoadSleeping => r.(prod := if r.sleeping then PWake else PIdle)
    case LockToSignal => r.(prod := PSignal, mx := ByProducer)
    case Signal => r.(prod := PIdle, mx := Free, cons := if r.cons.CWaiting? then CWoken else r.cons)
    case LoadTail => r.(cons := CSeen(r.tail))
    case Look => Looked(r, r.cons.t)
    case Done =>
      r.(head := r.head + r.cons.len, done := r.done + [Peek(r.buf, r.head, r.cons.len)],
         before := if r.before > 0 then r.before - 1 else 0, cons := CIdle)
    case Again => r.(cons := CIdle)
    case Lock => r.(cons := CLocked, mx := ByConsumer)
    case Flag => r.(cons := CFlagged, sleeping := true)
    case Check => r.(cons := if r.tail == r.head then CChecked else CLeaving)
    case Wait => r.(cons := CWaiting, mx := Free)
    case Wake => r.(cons := CWoken)
    case Relock => r.(cons := CLeaving, mx := ByConsumer)
    case Unflag => r.(cons := CUnlock, sleeping := false)
    case Unlock => r.(cons := CIdle, mx := Free)
  }

  ghost predicate IsRun(states: seq<Ring>, run: seq<Action>) {
    && |states| == |run| + 1
    && (exists cap: nat, buf: seq<byte> :: cap > 0 && |buf| == cap && states[0] == Empty(cap, buf))
    && forall i :: 0 <= i < |run| ==> Enabled(states[i], run[i]) && states[i + 1] == Act(states[i], run[i])
  }

  // ---- what every step keeps ----

  /** The items lie one after the other from `at` to `end`. */
  ghost predicate Laid(buf: seq<byte>, at: nat, items: seq<Item>, end: nat)
    decreases |items|
  {
    if items == [] then at == end
    else at + |items[0]| <= end <= |buf| && buf[at..at + |items[0]|] == items[0]
         && Laid(buf, at + |items[0]|, items[1..], end)
  }

  ghost predicate Zeros(buf: seq<byte>, at: nat, n: nat) {
    at + n <= |buf| && forall i :: at <= i < at + n ==> buf[i] == 0
  }

  ghost predicate Layout(cap: nat, buf: seq<byte>, head: nat, tail: nat, items: seq<Item>, wrap: Option<nat>, before: nat) {
    && |buf| == cap && head < cap && tail < cap
    && match wrap
       case None => head <= tail && Laid(buf, head, items, tail)
       case Some(e) =>
         && tail < head <= e < cap && before <= |items|
         && Laid(buf, head, items[..before], e) && Laid(buf, 0, items[before..], tail)
         && (cap - e >= HDR ==> Zeros(buf, e, HDR))
  }

  /** A head read earlier: the consumer has only moved on since. */
  ghost predicate StaleOk(h: nat, head: nat, tail: nat, wrap: Option<nat>) {
    if h <= tail then wrap.None? && h <= head else wrap.Some? ==> h <= head
  }

  ghost predicate ProdOk(prod: Prod, cap: nat, buf: seq<byte>, head: nat, tail: nat, wrap: Option<nat>) {
    match prod
    case PLoop(item) => IsItem(item) && |item| + HDR <= cap
    case PHave(item, h) => IsItem(item) && |item| + HDR <= cap && h < cap && StaleOk(h, head, tail, wrap)
    case PWrite(item, k) =>
      && IsItem(item) && k <= |item| && tail + |item| < cap == |buf|
      && (wrap.Some? ==> tail + |item| < head)
      && buf[tail..tail + k] == item[..k]
    case PMark(item, k) =>
      && IsItem(item) && |item| + HDR <= cap && wrap.None? && head > 0 && k <= HDR
      && (cap - tail >= HDR ==> Zeros(buf, tail, k))
    case _ => true
  }

  ghost predicate ConsOk(cons: Cons, head: nat, tail: nat, items: seq<Item>, wrap: Option<nat>, before: nat) {
    match cons
    case CSeen(t) => t != head ==> head != tail
    case CBusy(len) => items != [] && len == |items[0]| && (wrap.Some? ==> before > 0)
    case _ => true
  }

  /** The account of what went in and came out. */
  ghost predicate Ledger(pushed: seq<Item>, done: seq<Item>) {
    && |done| <= |pushed| && done == pushed[..|done|]
    && AllItems(pushed)
  }

  ghost predicate AllItems(items: seq<Item>) { forall i :: 0 <= i < |items| ==> IsItem(items[i]) }

  /** Who holds the mutex, what the flag says - and that a consumer about to wait, or waiting,
      with an item there, has the producer on its way to the signal. */
  ghost predicate WakeOk(sleeping: bool, mx: Owner, prod: Prod, cons: Cons, items: seq<Item>) {
    && (sleeping <==> cons.CFlagged? || cons.CChecked? || cons.CWaiting? || cons.CWoken? || cons.CLeaving?)
    && (mx.ByConsumer? <==> cons.CLocked? || cons.CFlagged? || cons.CChecked? || cons.CLeaving? || cons.CUnlock?)
    && (mx.ByProducer? <==> prod.PSignal?)
    && ((cons.CChecked? || cons.CWaiting?) && items != [] ==> prod.PStored? || prod.PWake? || prod.PSignal?)
  }

  ghost predicate Inv(r: Ring) {
    && Ledger(r.pushed, r.done)
    && Layout(r.cap, r.buf, r.head, r.tail, Unread(r), r.wrap, r.before)
    && ProdOk(r.prod, r.cap, r.buf, r.head, r.tail, r.wrap)
    && ConsOk(r.cons, r.head, r.tail, Unread(r), r.wrap, r.before)
    && WakeOk(r.sleeping, r.mx, r.prod, r.cons, Unread(r))
  }

  // ---- items lying in the buffer ----

  lemma {:induction false} LaidSpans(buf: seq<byte>, at: nat, items: seq<Item>, end: nat)
    requires Laid(buf, at, items, end) && AllItems(items)
    ensures at <= end && (items != [] ==> at + HDR <= end)
    decreases |items|
  {
    hide UnLe;
    if items != [] { LaidSpans(buf, at + |items[0]|, items[1..], end); }
  }

  lemma {:induction false} LaidFrame(buf: seq<byte>, buf': seq<byte>, at: nat, items: seq<Item>, end: nat)
    requires Laid(buf, at, items, end) && |buf'| == |buf| && end <= |buf|
    requires forall i :: at <= i < end ==> buf'[i] == buf[i]
    ensures Laid(buf', at, items, end)
    decreases |items|
  {
    if items != [] {
      assert buf'[at..at + |items[0]|] == buf[at..at + |items[0]|];
      LaidFrame(buf, buf', at + |items[0]|, items[1..], end);
    }
  }

  lemma {:induction false} LaidAppend(buf: seq<byte>, at: nat, items: seq<Item>, end: nat, it: Item)
    requires Laid(buf, at, items, end) && end + |it| <= |buf| && buf[end..end + |it|] == it
    ensures Laid(buf, at, items + [it], end + |it|)
    decreases |items|
  {
    var all := items + [it];
    if items != [] {
      LaidAppend(buf, at + |items[0]|, items[1..], end, it);
      assert all[1..] == items[1..] + [it];
    } else {
      assert all[1..] == [];
    }
  }

  /** Where the unread bytes are: items, and a wrap marker. */
  ghost predicate IsUnread(r: Ring, p: nat) {
    match r.wrap
    case None => r.head <= p < r.tail
    case Some(e) => r.head <= p < e || (r.cap - e >= HDR && e <= p < e + HDR) || p < r.tail
  }

  /** One byte outside the unread ones changes: the unread items still lie where they did. */
  lemma LayoutFrame(r: Ring, p: nat, b: byte)
    requires Layout(r.cap, r.buf, r.head, r.tail, Unread(r), r.wrap, r.before)
    requires p < r.cap && !IsUnread(r, p)
    ensures Layout(r.cap, Poke(r.buf, p, b), r.head, r.tail, Unread(r), r.wrap, r.before)
  {
    var items, buf' := Unread(r), Poke(r.buf, p, b);
    match r.wrap
    case None => LaidFrame(r.buf, buf', r.head, items, r.tail);
    case Some(e) =>
      LaidFrame(r.buf, buf', r.head, items[..r.before], e);
      LaidFrame(r.buf, buf', 0, items[r.before..], r.tail);
  }

  // ---- the producer's steps ----

  lemma CopyByteKeeps(r: Ring)
    requires Inv(r) && Enabled(r, CopyByte)
    ensures r.tail + r.prod.k < r.cap && !IsUnread(r, r.tail + r.prod.k)
    ensures Inv(Act(r, CopyByte))
  {
    hide IsItem;
    hide Laid;
    hide Ledger;
    hide ConsOk;
    var item, k := r.prod.item, r.prod.k;
    LayoutFrame(r, r.tail + k, item[k]);
    Copied(r.buf, r.tail, item, k);
    hide Poke;
  }

  lemma Copied(buf: seq<byte>, tail: nat, item: Item, k: nat)
    requires k < |item| && tail + |item| <= |buf| && buf[tail..tail + k] == item[..k]
    ensures var buf' := Poke(buf, tail + k, item[k]);
            |buf'| == |buf| && buf'[tail..tail + (k + 1)] == item[..k + 1]
  {
    var buf' := Poke(buf, tail + k, item[k]);
    assert buf'[tail..tail + (k + 1)] == buf[tail..tail + k] + [item[k]];
    assert item[..k + 1] == item[..k] + [item[k]];
  }

  lemma MarkByteKeeps(r: Ring)
    requires Inv(r) && Enabled(r, MarkByte)
    ensures r.tail + r.prod.k < r.cap && !IsUnread(r, r.tail + r.prod.k)
    ensures Inv(Act(r, MarkByte))
  {
    hide IsItem;
    hide Laid;
    hide Ledger;
    hide ConsOk;
    LayoutFrame(r, r.tail + r.prod.k, 0);
  }

  lemma LayoutAppend(cap: nat, buf: seq<byte>, head: nat, tail: nat, items: seq<Item>, wrap: Option<nat>, before: nat, it: Item)
    requires Layout(cap, buf, head, tail, items, wrap, before)
    requires tail + |it| < cap && (wrap.Some? ==> tail + |it| < head) && buf[tail..tail + |it|] == it
    ensures Layout(cap, buf, head, tail + |it|, items + [it], wrap, before)
  {
    hide Laid;
    match wrap
    case None => LaidAppend(buf, head, items, tail, it);
    case Some(e) =>
      LaidAppend(buf, 0, items[before..], tail, it);
      assert (items + [it])[..before] == items[..before];
      assert (items + [it])[before..] == items[before..] + [it];
  }

  lemma ItemSize(it: Item)
    requires IsItem(it)
    ensures |it| >= HDR
  {
    hide UnLe;
  }

  lemma LedgerPush(pushed: seq<Item>, done: seq<Item>, it: Item)
    requires Ledger(pushed, done) && IsItem(it)
    ensures Ledger(pushed + [it], done) && |done| <= |pushed|
    ensures (pushed + [it])[|done|..] == pushed[|done|..] + [it]
  {
    hide IsItem;
    assert (pushed + [it])[..|done|] == pushed[..|done|];
  }

  lemma StoreTailKeeps(r: Ring)
    requires Inv(r) && Enabled(r, StoreTail)
    ensures Inv(Act(r, StoreTail))
  {
    hide Layout;
    hide IsItem;
    hide Ledger;
    var item, items := r.prod.item, Unread(r);
    assert item[..|item|] == item;
    ItemSize(item);
    LayoutAppend(r.cap, r.buf, r.head, r.tail, items, r.wrap, r.before, item);
    LedgerPush(r.pushed, r.done, item);
    if r.cons.CSeen? {
      TailMoves(r, |item|);
    }
  }

  /** Whatever the consumer saw, the producer's moving the tail up does not empty the ring. */
  lemma TailMoves(r: Ring, n: nat)
    requires Layout(r.cap, r.buf, r.head, r.tail, Unread(r), r.wrap, r.before)
    requires n > 0 && (r.wrap.Some? ==> r.tail + n < r.head)
    ensures r.head != r.tail + n
  {
    hide Laid;
  }

  lemma StoreWrapKeeps(r: Ring)
    requires Inv(r) && Enabled(r, StoreWrap)
    ensures Inv(Act(r, StoreWrap))
  {
    hide IsItem;
    hide Ledger;
    var items := Unread(r);
    assert items[..|items|] == items;
  }

  lemma RoomIs(h: nat, tail: nat, cap: nat)
    requires h < cap && tail < cap
    ensures Room(h, tail, cap) == if h > tail then h - tail - 1 else cap - tail - 1 + h
  {
    ModOnce(h + cap - tail - 1, cap);
  }

  lemma ModOnce(x: nat, cap: nat)
    requires 0 < cap && x < 2 * cap
    ensures x % cap == if x < cap then x else x - cap
  {
    var q := x / cap;
    assert x == q * cap + x % cap;
    AtMost(2, q, cap);
    AtMost(1, q, cap);
    AtMost(q, 0, cap);
  }

  lemma AtMost(a: int, b: int, n: nat)
    ensures a <= b ==> a * n <= b * n
  {
  }

  lemma DecideKeeps(r: Ring)
    requires Inv(r) && Enabled(r, Decide)
    ensures Inv(Act(r, Decide))
  {
    hide IsItem;
    hide Laid;
    hide Ledger;
    hide Room;
    hide ConsOk;
    RoomIs(r.prod.h, r.tail, r.cap);
  }

  // ---- the consumer's steps ----

  /** The first item lies at head, whole, before any wrap. */
  lemma FirstItem(r: Ring)
    requires Inv(r) && (r.head != r.tail || Unread(r) != []) && (r.wrap.Some? ==> r.before > 0)
    ensures Unread(r) != []
    ensures var it := Unread(r)[0];
            && IsItem(it) && r.head + |it| <= (if r.wrap.Some? then r.wrap.value else r.tail)
            && Peek(r.buf, r.head, |it|) == it
  {
    hide UnLe;
    var items := Unread(r);
    if items != [] {
      assert items[0] == r.pushed[|r.done|];
    }
  }

  lemma HeaderLength(r: Ring, it: Item)
    requires r.head + |it| <= |r.buf| && Peek(r.buf, r.head, |it|) == it && IsItem(it)
    ensures var h := Peek(r.buf, r.head, HDR); |h| == HDR && UnLe(h[..4]) == |it| == DoneLen(h)
  {
    hide UnLe;
    var h := Peek(r.buf, r.head, HDR);
    assert it[..HDR] == h && it[..4] == h[..4];
  }

  lemma MarkerLength(buf: seq<byte>, at: nat)
    requires Zeros(buf, at, HDR)
    ensures var h := Peek(buf, at, HDR); |h| == HDR && UnLe(h[..4]) == 0
  {
    ZeroNumber(Peek(buf, at, HDR)[..4]);
  }

  lemma {:induction false} ZeroNumber(b: seq<byte>)
    requires forall i :: 0 <= i < |b| ==> b[i] == 0
    ensures UnLe(b) == 0
  {
    if b != [] { ZeroNumber(b[1..]); }
  }

  /** With no item left before the wrap, moving head to 0 keeps everything. */
  lemma WrapTaken(r: Ring)
    requires Inv(r) && r.cons.CSeen? && r.wrap.Some? && r.before == 0
    ensures Inv(r.(head := 0, wrap := None, cons := CIdle))
  {
    hide IsItem;
    hide Ledger;
    var items := Unread(r);
    assert items[..0] == [] && items[0..] == items;
    var r' := r.(head := 0, wrap := None, cons := CIdle);
    assert Unread(r') == items;
  }

  lemma LookKeeps(r: Ring)
    requires Inv(r) && Enabled(r, Look)
    ensures Inv(Act(r, Look))
  {
    hide UnLe;
    hide Laid;
    if r.head != r.cons.t {
      if r.wrap.Some? && r.before == 0 {
        var e := r.wrap.value;
        assert r.head == e by { WrapIsNext(r); }
        if r.cap - e >= HDR { MarkerLength(r.buf, e); }
        WrapTaken(r);
      } else {
        FirstItem(r);
        HeaderLength(r, Unread(r)[0]);
      }
    }
  }

  lemma WrapIsNext(r: Ring)
    requires Inv(r) && r.wrap.Some? && r.before == 0
    ensures r.head == r.wrap.value
  {
    hide UnLe;
    assert Unread(r)[..0] == [];
  }

  lemma DoneKeeps(r: Ring)
    requires Inv(r) && Enabled(r, Done)
    ensures Unread(r) != [] && r.head + r.cons.len <= r.cap && Peek(r.buf, r.head, r.cons.len) == Unread(r)[0]
    ensures Inv(Act(r, Done))
  {
    hide IsItem;
    hide Laid;
    FirstItem(r);
    hide Ledger;
    hide Peek;
    LedgerDone(r.pushed, r.done);
    var items := Unread(r);
    LayoutPop(r.cap, r.buf, r.head, r.tail, items, r.wrap, r.before);
  }

  lemma LedgerDone(pushed: seq<Item>, done: seq<Item>)
    requires Ledger(pushed, done) && pushed[|done|..] != []
    ensures |done| < |pushed| && Ledger(pushed, done + [pushed[|done|]])
    ensures pushed[|done| + 1..] == pushed[|done|..][1..]
  {
    hide IsItem;
    assert done + [pushed[|done|]] == pushed[..|done| + 1];
  }

  lemma LayoutPop(cap: nat, buf: seq<byte>, head: nat, tail: nat, items: seq<Item>, wrap: Option<nat>, before: nat)
    requires Layout(cap, buf, head, tail, items, wrap, before) && items != [] && (wrap.Some? ==> before > 0)
    requires head + |items[0]| <= (if wrap.Some? then wrap.value else tail)
    ensures Layout(cap, buf, head + |items[0]|, tail, items[1..], wrap, if before > 0 then before - 1 else 0)
  {
    if wrap.Some? {
      assert items[..before][1..] == items[1..][..before - 1];
      assert items[before..] == items[1..][before - 1..];
    }
  }

  lemma OtherKeeps(r: Ring, a: Action)
    requires Inv(r) && Enabled(r, a)
    requires !(a.Decide? || a.CopyByte? || a.StoreTail? || a.MarkByte? || a.StoreWrap? || a.Look? || a.Done?)
    ensures Inv(Act(r, a))
  {
    hide UnLe;
    hide Laid;
    hide Zeros;
    hide Ledger;
    var r' := Act(r, a);
    assert Unread(r') == Unread(r);
    if a.Check? && r.head == r.tail {
      EmptyMeansNothing(r);
    }
  }

  /** head == tail exactly when nothing - no item, no wrap marker - is unread. */
  lemma EmptyMeansNothing(r: Ring)
    requires Inv(r)
    ensures r.head == r.tail <==> Unread(r) == [] && r.wrap.None?
  {
    if r.wrap.None? && Unread(r) != [] { FirstItem(r); }
  }

  lemma ActKeeps(r: Ring, a: Action)
    requires Inv(r) && Enabled(r, a)
    ensures Inv(Act(r, a))
  {
    hide Inv;
    hide Act;
    match a
    case Decide => DecideKeeps(r);
    case CopyByte => CopyByteKeeps(r);
    case StoreTail => StoreTailKeeps(r);
    case MarkByte => MarkByteKeeps(r);
    case StoreWrap => StoreWrapKeeps(r);
    case Look => LookKeeps(r);
    case Done => DoneKeeps(r);
    case _ => OtherKeeps(r, a);
  }

  lemma {:induction false} RunKeeps(states: seq<Ring>, run: seq<Action>, n: nat)
    requires IsRun(states, run) && n < |states|
    ensures Inv(states[n])
  {
    hide Act;
    if n > 0 {
      RunKeeps(states, run, n - 1);
      ActKeeps(states[n - 1], run[n - 1]);
    }
  }

  // ---- the results ----

  /** Ring safety, in every interleaving and whatever stale head the producer decided on: both
      indices stay inside the buffer, head == tail exactly when nothing is unread, and the items
      released are a prefix, byte for byte, of the items pushed. */
  lemma RingIsSafe(states: seq<Ring>, run: seq<Action>, n: nat)
    requires IsRun(states, run) && n < |states|
    ensures var r := states[n];
            && |r.buf| == r.cap && r.head < r.cap && r.tail < r.cap
            && (r.head == r.tail <==> Unread(r) == [] && r.wrap.None?)
            && |r.done| <= |r.pushed| && r.done == r.pushed[..|r.done|]
  {
    RunKeeps(states, run, n);
    EmptyMeansNothing(states[n]);
  }

  lemma OnlyCopiesWrite(r: Ring, a: Action)
    requires Enabled(r, a) && !a.CopyByte? && !a.MarkByte?
    ensures Act(r, a).buf == r.buf
  {
    hide UnLe;
  }

  lemma StepIsClean(r: Ring, a: Action, p: nat)
    requires Inv(r) && Enabled(r, a) && p < r.cap && IsUnread(r, p)
    ensures p < |r.buf| == |Act(r, a).buf| && Act(r, a).buf[p] == r.buf[p]
  {
    hide UnLe;
    hide Laid;
    if a.CopyByte? {
      CopyByteKeeps(r);
    } else if a.MarkByte? {
      MarkByteKeeps(r);
    } else {
      OnlyCopiesWrite(r, a);
    }
  }

  /** No step of either thread changes an unread byte. */
  lemma NoUnreadByteChanges(states: seq<Ring>, run: seq<Action>, n: nat, p: nat)
    requires IsRun(states, run) && n < |run|
    requires p < states[n].cap && IsUnread(states[n], p)
    ensures p < |states[n].buf| == |states[n + 1].buf| && states[n + 1].buf[p] == states[n].buf[p]
  {
    hide Inv;
    hide Act;
    RunKeeps(states, run, n);
    StepIsClean(states[n], run[n], p);
  }

  /** Every byte a step writes, and every item released, lies inside the buffer. */
  lemma StepsStayInside(states: seq<Ring>, run: seq<Action>, n: nat)
    requires IsRun(states, run) && n < |run|
    ensures run[n].CopyByte? || run[n].MarkByte? ==> states[n].tail + states[n].prod.k < states[n].cap
    ensures run[n].Done? ==> states[n].head + states[n].cons.len <= states[n].cap
  {
    hide Inv;
    hide Act;
    RunKeeps(states, run, n);
    if run[n].CopyByte? { CopyByteKeeps(states[n]); }
    if run[n].MarkByte? { MarkByteKeeps(states[n]); }
    if run[n].Done? { DoneKeeps(states[n]); }
  }

  /** A ring is a first-in first-out queue of items: storing the tail appends one, releasing takes the
      first - the bytes found there are that item - and no other step changes what is queued. */
  lemma RingIsAQueue(states: seq<Ring>, run: seq<Action>, n: nat)
    requires IsRun(states, run) && n < |run|
    ensures var r, r' := states[n], states[n + 1];
            match run[n]
            case StoreTail => Unread(r') == Unread(r) + [r.prod.item] && r'.done == r.done
            case Done => Unread(r) != [] && Unread(r') == Unread(r)[1..] && r'.done == r.done + [Unread(r)[0]]
            case _ => Unread(r') == Unread(r) && r'.done == r.done
  {
    hide Inv;
    RunKeeps(states, run, n);
    QueueStep(states[n], run[n]);
  }

  lemma QueueStep(r: Ring, a: Action)
    requires Inv(r) && Enabled(r, a)
    ensures var r' := Act(r, a);
            match a
            case StoreTail => Unread(r') == Unread(r) + [r.prod.item] && r'.done == r.done
            case Done => Unread(r) != [] && Unread(r') == Unread(r)[1..] && r'.done == r.done + [Unread(r)[0]]
            case _ => Unread(r') == Unread(r) && r'.done == r.done
  {
    hide UnLe;
    hide Layout;
    hide Peek;
    hide IsItem;
    if a.StoreTail? {
      LedgerPush(r.pushed, r.done, r.prod.item);
    } else if a.Done? {
      DoneKeeps(r);
      LedgerDone(r.pushed, r.done);
    }
  }

  /** No lost wake-up: whenever a complete item is in the ring and the consumer is blocked in its
      wait, the producer is between its tail store and its signal. */
  lemma NoLostWakeUp(states: seq<Ring>, run: seq<Action>, n: nat)
    requires IsRun(states, run) && n < |states|
    requires states[n].cons.CWaiting? && Unread(states[n]) != []
    ensures states[n].prod.PStored? || states[n].prod.PWake? || states[n].prod.PSignal?
  {
    RunKeeps(states, run, n);
  }

  /** Backpressure never wedges: the producer, on a fresh head, goes round again only while the
      consumer has something to take. */
  lemma BlockedMeansWork(states: seq<Ring>, run: seq<Action>, n: nat)
    requires IsRun(states, run) && n < |states|
    requires var r := states[n]; r.prod.PHave? && r.prod.h == r.head && Decided(r, r.prod.item, r.prod.h).PLoop?
    ensures states[n].head != states[n].tail
  {
    hide UnLe;
    hide Room;
    RunKeeps(states, run, n);
    RoomIs(states[n].prod.h, states[n].tail, states[n].cap);
  }

  /** What the producer does on a fresh head, by what is unread: an item goes in exactly when the free bytes
      behind the tail take it with one to spare, the tail turns exactly when the end is too short for it
      and nothing unread lies at the start, and otherwise the producer waits. */
  lemma DecidesByRoom(r: Ring)
    requires Inv(r) && r.prod.PHave? && r.prod.h == r.head
    ensures var item, d := r.prod.item, Act(r, Decide).prod;
      && (d == PWrite(item, 0) <==> r.tail + |item| < if r.wrap.Some? then r.head else r.cap)
      && (d == PMark(item, 0) <==> r.wrap.None? && r.tail + |item| >= r.cap && r.head > 0)
      && (d == PWrite(item, 0) || d == PMark(item, 0) || d == PLoop(item))
  {
    hide IsItem;
    hide Laid;
    hide Ledger;
    hide Room;
    RoomIs(r.prod.h, r.tail, r.cap);
  }

  /** What the consumer finds: nothing when the tail it loaded is its head, the first unread item when one
      lies before the wrap, and otherwise the wrap, over which it goes to the start. */
  lemma LookFinds(r: Ring)
    requires Inv(r) && r.cons.CSeen?
    ensures var r' := Act(r, Look);
      if r.cons.t == r.head then r' == r.(cons := CEmpty)
      else if r.wrap.Some? && r.before == 0 then r' == r.(head := 0, wrap := None, cons := CIdle)
      else Unread(r) != [] && r' == r.(cons := CBusy(|Unread(r)[0]|))
  {
    hide UnLe;
    hide Laid;
    if r.head != r.cons.t {
      if r.wrap.Some? && r.before == 0 {
        var e := r.wrap.value;
        assert r.head == e by { WrapIsNext(r); }
        if r.cap - e >= HDR { MarkerLength(r.buf, e); }
      } else {
        FirstItem(r);
        HeaderLength(r, Unread(r)[0]);
      }
    }
  }

  /** The consumer goes to sleep, its flag up, exactly when nothing is unread. */
  lemma SleepsWhenEmpty(r: Ring)
    requires Inv(r) && r.cons.CFlagged?
    ensures r.sleeping && (Act(r, Check).cons == CChecked <==> Unread(r) == [] && r.wrap.None?)
  {
    EmptyMeansNothing(r);
    hide Layout;
    hide Ledger;
  }

  // ---- what callers pushed ----

  /** The items callers pushed that fit at all, but for those given up. */
  function Asked(cap: nat, run: seq<Action>): seq<Item> {
    if run == [] then []
    else
      var front := Asked(cap, run[..|run| - 1]);
      match run[|run| - 1]
      case Push(item) => if |item| + HDR <= cap then front + [item] else front
      case GiveUp => if front == [] then [] else front[..|front| - 1]
      case _ => front
  }

  /** The item the producer is on. */
  function InHand(prod: Prod): seq<Item> {
    if prod.PLoop? || prod.PHave? || prod.PWrite? || prod.PMark? then [prod.item] else []
  }

  lemma AskedStep(r: Ring, a: Action, asked: seq<Item>)
    requires Enabled(r, a) && asked == r.pushed + InHand(r.prod)
    ensures var r' := Act(r, a);
      && r'.cap == r.cap
      && r'.pushed + InHand(r'.prod) ==
         match a
         case Push(item) => if |item| + HDR <= r.cap then asked + [item] else asked
         case GiveUp => if asked == [] then [] else asked[..|asked| - 1]
         case _ => asked
  {
    hide UnLe;
    hide IsItem;
    hide Room;
    hide Peek;
  }

  /** Nothing pushed is lost: in every interleaving the items callers pushed are, in order, those stored
      and then the one the producer is on. */
  lemma {:induction false} StoredIsPushed(states: seq<Ring>, run: seq<Action>, n: nat)
    requires IsRun(states, run) && n < |states|
    ensures var r := states[n];
      r.cap == states[0].cap && Asked(r.cap, run[..n]) == r.pushed + InHand(r.prod)
  {
    hide Act;
    hide Enabled;
    if n > 0 {
      StoredIsPushed(states, run, n - 1);
      assert run[..n][..n - 1] == run[..n - 1] && run[..n][n - 1] == run[n - 1];
      AskedStep(states[n - 1], run[n - 1], Asked(states[0].cap, run[..n - 1]));
    }
  }

  /** What was released is so a prefix of what callers pushed. */
  lemma ReleasedInOrder(states: seq<Ring>, run: seq<Action>, n: nat)
    requires IsRun(states, run) && n < |states|
    ensures var r, asked := states[n], Asked(states[0].cap, run[..n]);
      |r.done| <= |asked| && r.done == asked[..|r.done|]
  {
    hide IsRun;
    RingIsSafe(states, run, n);
    StoredIsPushed(states, run, n);
  }
}
