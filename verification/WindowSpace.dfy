/** `struct space` of src/clack.c as it is kept in memory: the seqs held ahead of the mark are
    bits of a circular window, the waiting pairs a fixed array.  Each method is proved to do,
    on the value the memory stands for, what the function of module Watermark says. */
module WindowSpace {
  import opened Watermark
  import opened Words

  // ---- the circular window over 4096 bits ----

  /** The seqs the window holds: each seq of (mark, mark + WINDOW] has a bit of its own. */
  function Window(bits: seq<bool>, mark: nat): set<nat>
    requires |bits| == WINDOW
  {
    set s | mark < s <= mark + WINDOW && bits[s % WINDOW]
  }

  lemma BitChanged(bits: seq<bool>, mark: nat, s: nat, on: bool)
    requires |bits| == WINDOW && mark < s <= mark + WINDOW
    ensures Window(bits[s % WINDOW := on], mark)
         == if on then Window(bits, mark) + {s} else Window(bits, mark) - {s}
  {
    var now := bits[s % WINDOW := on];
    forall t | mark < t <= mark + WINDOW && t != s ensures now[t % WINDOW] == bits[t % WINDOW] {
      if t % WINDOW == s % WINDOW { SameSeq(mark, s, t); }
    }
  }

  /** Every bit is some seq's of the window. */
  lemma BitHasSeq(mark: nat, s: nat) returns (k: nat)
    ensures mark < k <= mark + WINDOW && k % WINDOW == s % WINDOW
  {
    k := mark + 1 + (s + WINDOW - (mark + 1) % WINDOW) % WINDOW;
  }

  lemma SameSeq(mark: nat, a: nat, b: nat)
    requires mark < a <= mark + WINDOW && mark < b <= mark + WINDOW && a % WINDOW == b % WINDOW
    ensures a == b
  {
  }

  /** The mark moves over seqs that are not held: the window stands for the same seqs. */
  lemma Slide(bits: seq<bool>, from: nat, to: nat)
    requires |bits| == WINDOW && from <= to
    requires forall s :: s in Window(bits, from) ==> s > to
    ensures Window(bits, to) == Window(bits, from)
  {
    forall s | s in Window(bits, to) ensures s in Window(bits, from) {
      var k := BitHasSeq(from, s);
      assert k in Window(bits, from);
      SameSeq(to, s, k);
    }
  }

  lemma NoBits(bits: seq<bool>, mark: nat)
    requires |bits| == WINDOW && forall i :: 0 <= i < WINDOW ==> !bits[i]
    ensures Window(bits, mark) == {}
  {
  }

  // ---- the window packed in words ----

  const WORDS := WINDOW / SIZE

  /** The seqs the packed window holds. */
  function AheadOf(ws: seq<bv64>, mark: nat): (held: set<nat>)
    requires |ws| == WORDS
    ensures forall s :: s in held ==> mark < s <= mark + WINDOW
  {
    Window(Bits(ws), mark)
  }

  lemma HasBit(ws: seq<bv64>, mark: nat, s: nat)
    requires |ws| == WORDS
    ensures s in AheadOf(ws, mark) <==>
              mark < s <= mark + WINDOW && Bit(ws[s % WINDOW / SIZE], s % WINDOW % SIZE)
  {
    hide Bit;
  }

  lemma PutAhead(ws: seq<bv64>, mark: nat, s: nat, on: bool)
    requires |ws| == WORDS && mark < s <= mark + WINDOW
    ensures AheadOf(ws[s % WINDOW / SIZE := Put(ws[s % WINDOW / SIZE], s % WINDOW % SIZE, on)], mark)
         == if on then AheadOf(ws, mark) + {s} else AheadOf(ws, mark) - {s}
  {
    hide Put;
    hide Bits;
    hide Window;
    PutBits(ws, s % WINDOW, on);
    BitChanged(Bits(ws), mark, s, on);
  }

  lemma SlideAhead(ws: seq<bv64>, from: nat, to: nat)
    requires |ws| == WORDS && from <= to
    requires forall s :: s in AheadOf(ws, from) ==> s > to
    ensures AheadOf(ws, to) == AheadOf(ws, from)
  {
    hide Bits;
    hide Window;
    assert AheadOf(ws, from) == Window(Bits(ws), from) && AheadOf(ws, to) == Window(Bits(ws), to);
    Slide(Bits(ws), from, to);
  }

  lemma NoneAhead(ws: seq<bv64>, mark: nat)
    requires |ws| == WORDS && forall i :: 0 <= i < WORDS ==> ws[i] == 0
    ensures AheadOf(ws, mark) == {}
  {
    hide Window;
    hide Bits;
    Words.NoBits(ws);
    NoBits(Bits(ws), mark);
  }

  class NumberSpace {
    const oid: nat
    const incarn: nat
    var nahead: nat           // bits set in the window
    var mark: nat
    var dmark: nat
    var hi: nat
    var wmax: nat
    var wahead: nat
    var npend: nat
    const pend: array<Pair>   // oldest first
    const ahead: array<bv64>  // the window: bit (seq % WINDOW) for each seq held

    ghost predicate Shape()
      reads this, ahead
    {
      && pend.Length == PENDING && npend <= PENDING
      && ahead.Length == WORDS
      && nahead == |AheadOf(ahead[..], mark)|
    }

    ghost predicate Valid()
      reads this, ahead
    {
      Shape() && forall s :: s in AheadOf(ahead[..], mark) ==> mark + 1 < s <= hi
    }

    /** The value this memory stands for. */
    ghost function View(): Space
      requires Shape()
      reads this, pend, ahead
    {
      Space(mark, dmark, hi, wmax, wahead, pend[..npend], AheadOf(ahead[..], mark))
    }

    constructor (oid: nat, incarn: nat)
      ensures this.oid == oid && this.incarn == incarn
      ensures Valid() && View() == EMPTY && fresh(pend) && fresh(ahead)
    {
      this.oid, this.incarn := oid, incarn;
      nahead, mark, dmark, hi, wmax, wahead, npend := 0, 0, 0, 0, 0, 0, 0;
      pend := new Pair[PENDING](i => Pair(0, 0));
      ahead := new bv64[WORDS](i => 0);
      new;
      NoneAhead(ahead[..], 0);
    }

    /** The seq's bit. */
    predicate Test(num: nat)
      requires ahead.Length == WORDS
      reads this, ahead
    {
      var b := num % WINDOW;
      Bit(ahead[b / SIZE], b % SIZE)
    }

    method SetBit(num: nat, on: bool)
      requires Shape() && mark < num <= mark + WINDOW
      requires on <==> num !in AheadOf(ahead[..], mark)
      modifies this`nahead, ahead
      ensures Shape()
      ensures AheadOf(ahead[..], mark)
           == if on then old(AheadOf(ahead[..], mark)) + {num} else old(AheadOf(ahead[..], mark)) - {num}
    {
      hide AheadOf;
      var b := num % WINDOW;
      PutAhead(ahead[..], mark, num, on);
      hide Put;
      ahead[b / SIZE] := Put(ahead[b / SIZE], b % SIZE, on);
      nahead := if on then nahead + 1 else nahead - 1;
    }

    method Confirm(onApply: bool, synced: nat)
      requires Valid()
      modifies this`dmark, this`npend, pend
      ensures Valid() && View() == Watermark.Confirm(old(View()), onApply, synced)
    {
      if onApply || wmax <= synced {
        dmark, npend := mark, 0;
      } else if npend > 0 && (pend[npend - 1].w == wmax || npend == PENDING) {
        pend[npend - 1] := Pair(mark, wmax);
      } else {
        pend[npend] := Pair(mark, wmax);
        npend := npend + 1;
      }
    }

    /** Every held seq the mark now connects to goes under it. */
    method Connect() returns (took: bool)
      requires Shape()
      modifies this`mark, this`nahead, ahead
      ensures Shape() && took == (mark > old(mark))
      ensures (mark, AheadOf(ahead[..], mark)) == Absorb(old(mark), old(AheadOf(ahead[..], mark)))
    {
      hide AheadOf;
      hide Bit;
      took := false;
      while nahead > 0 && Test(mark + 1)
        invariant Shape() && took == (mark > old(mark)) && mark >= old(mark)
        invariant Absorb(mark, AheadOf(ahead[..], mark)) == Absorb(old(mark), old(AheadOf(ahead[..], mark)))
        decreases nahead
      {
        HasBit(ahead[..], mark, mark + 1);
        SetBit(mark + 1, false);
        SlideAhead(ahead[..], mark, mark + 1);
        mark, took := mark + 1, true;
      }
      HasBit(ahead[..], mark, mark + 1);
    }

    /** The mark moves by one and then over the run of set bits that follows. */
    method TakeNext(w: nat)
      requires Valid() && mark < hi
      modifies this`mark, this`nahead, this`wmax, this`wahead, ahead
      ensures Valid() && View() == Advance(old(View()), w)
    {
      hide AheadOf;
      hide Absorb;
      ghost var held := AheadOf(ahead[..], mark);
      AbsorbRuns(mark + 1, held);
      SlideAhead(ahead[..], mark, mark + 1);
      var top := if w > wmax then w else wmax;
      mark := mark + 1;
      var took := Connect();
      if took && wahead > top { top := wahead; }
      if nahead == 0 { wahead := 0; }
      wmax := top;
    }

    /** One ahead of the next in line is held. */
    method HoldAhead(num: nat, w: nat)
      requires Valid() && mark + 1 < num <= mark + WINDOW && num <= hi && num !in AheadOf(ahead[..], mark)
      modifies this`nahead, this`wahead, ahead
      ensures Valid()
      ensures View() == old(View()).(ahead := old(View()).ahead + {num}, wahead := Max(old(wahead), w))
    {
      hide AheadOf;
      SetBit(num, true);
      if w > wahead { wahead := w; }
    }

    /** Seq `num` with WAL seq w: the fields and the answer of Apply. */
    method Applied(onApply: bool, synced: nat, num: nat, w: nat) returns (out: Outcome)
      requires Valid() && num > 0
      modifies this, pend, ahead
      ensures Valid() && (View(), out) == Apply(old(View()), onApply, synced, num, w)
    {
      hide AheadOf;
      hide Advance;
      hide Watermark.Confirm;
      HasBit(ahead[..], mark, num);
      if num <= mark || (num - mark <= WINDOW && Test(num)) {
        return Dup;
      }
      if num > hi { hi := num; }
      if num - mark > WINDOW {
        return Far;
      }
      out := New;
      if num != mark + 1 {
        HoldAhead(num, w);
      } else {
        TakeNext(w);
        Confirm(onApply, synced);
      }
    }

    /** The first k pairs leave the queue. */
    method DropFront(k: nat)
      requires Valid() && k <= npend
      modifies this`npend, pend
      ensures Valid() && pend[..npend] == old(pend[k..npend])
    {
      hide AheadOf;
      ghost var was := pend[..npend];
      var i := 0;
      while i < npend - k
        modifies pend
        invariant 0 <= i <= npend - k
        invariant forall j :: 0 <= j < i ==> pend[j] == was[k + j]
        invariant forall j :: i <= j < npend ==> pend[j] == was[j]
      {
        pend[i] := pend[i + k];
        i := i + 1;
      }
      npend := npend - k;
    }

    static lemma CoverStep(pend: seq<Pair>, k: nat, to: nat, d: nat)
      requires k <= |pend|
      ensures Covered(pend[k..], to)
           == if k < |pend| && pend[k].w <= to then 1 + Covered(pend[k + 1..], to) else 0
      ensures k < |pend| ==> RaiseOver(d, pend[..k + 1]) == Max(RaiseOver(d, pend[..k]), pend[k].upto)
    {
      if k < |pend| {
        assert pend[k..][1..] == pend[k + 1..] && pend[..k + 1][..k] == pend[..k];
      }
    }

    /** How many of the waiting pairs the sync covers; the confirmed mark goes up with them. */
    method CoverFront(to: nat) returns (k: nat)
      requires Valid()
      modifies this`dmark
      ensures k == Covered(pend[..npend], to) && dmark == RaiseOver(old(dmark), pend[..npend][..k])
    {
      hide AheadOf;
      hide Covered;
      hide RaiseOver;
      ghost var was := pend[..npend];
      k := 0;
      assert was[0..] == was && RaiseOver(dmark, was[..0]) == dmark by { Nothing(dmark); }
      while k < npend && pend[k].w <= to
        invariant 0 <= k <= npend
        invariant dmark == RaiseOver(old(dmark), was[..k])
        invariant Covered(was, to) == k + Covered(was[k..], to)
      {
        CoverStep(was, k, to, old(dmark));
        if pend[k].upto > dmark { dmark := pend[k].upto; }
        k := k + 1;
      }
      CoverStep(was, k, to, old(dmark));
    }

    static lemma Nothing(d: nat)
      ensures RaiseOver(d, []) == d
    {
    }

    /** The pairs of WAL seq at most `to` leave, as in Sync. */
    method Synced(to: nat)
      requires Valid()
      modifies this`dmark, this`npend, pend
      ensures Valid() && View() == Sync(old(View()), to)
    {
      hide AheadOf;
      hide Covered;
      hide RaiseOver;
      ghost var was := pend[..npend];
      var k := CoverFront(to);
      assert was[k..] == pend[k..npend];
      DropFront(k);
    }

    /** The scan for the gap: `to` ends where the next set bit begins, or at hi. */
    method Gap() returns (found: bool, from: nat, to: nat)
      requires Valid()
      ensures found == (hi > mark)
      ensures found ==> IsGap(View(), from, to)
    {
      hide AheadOf;
      hide Bit;
      found, from, to := hi > mark, mark + 1, hi;
      if found && nahead > 0 {
        var s := mark + 2;
        while s <= mark + WINDOW && !Test(s)
          invariant mark + 2 <= s <= mark + WINDOW + 1
          invariant forall t :: mark < t < s ==> t !in AheadOf(ahead[..], mark)
        {
          HasBit(ahead[..], mark, s);
          s := s + 1;
        }
        if s <= mark + WINDOW {
          HasBit(ahead[..], mark, s);
          to := s - 1;
        }
      }
    }

    /** Every field set as Restore sets it. */
    method Restored(to: nat)
      requires Valid()
      modifies this, ahead
      ensures Valid() && View() == Restore(to)
    {
      ClearWindow();
      NoneAhead(ahead[..], to);
      npend, mark, dmark, hi, wmax, wahead := 0, to, to, to, 0, 0;
    }

    method ClearWindow()
      requires Shape()
      modifies this`nahead, ahead
      ensures Shape() && nahead == 0 && forall i :: 0 <= i < WORDS ==> ahead[i] == 0
    {
      forall i | 0 <= i < WORDS { ahead[i] := 0; }
      nahead := 0;
      NoneAhead(ahead[..], mark);
    }

    /** Clears the bits up to the floor and moves the mark there. */
    method SinkTo(floor: nat)
      requires Shape() && mark < floor
      modifies this`mark, this`nahead, ahead
      ensures Shape() && mark == floor
      ensures AheadOf(ahead[..], floor) == Above(old(AheadOf(ahead[..], mark)), floor)
    {
      hide AheadOf;
      hide Bit;
      if floor - mark > WINDOW {
        ClearWindow();
        NoneAhead(ahead[..], floor);
      } else {
        ghost var held := AheadOf(ahead[..], mark);
        var s := mark + 1;
        while s <= floor && nahead > 0
          invariant Shape() && mark + 1 <= s <= floor + 1 && mark == old(mark)
          invariant AheadOf(ahead[..], mark) == Above(held, s - 1)
        {
          HasBit(ahead[..], mark, s);
          if Test(s) { SetBit(s, false); }
          s := s + 1;
        }
        assert AheadOf(ahead[..], mark) == Above(held, floor);
        SlideAhead(ahead[..], mark, floor);
      }
      mark := floor;
    }

    /** Filters the pairs in place, keeping those beyond the floor. */
    method KeepBeyond(floor: nat)
      requires Shape()
      modifies this`npend, pend
      ensures Shape() && pend[..npend] == Beyond(old(pend[..npend]), floor)
    {
      hide AheadOf;
      ghost var was := pend[..npend];
      var k, n := 0, 0;
      while k < npend
        modifies pend
        invariant 0 <= n <= k <= npend
        invariant pend[..n] == Beyond(was[..k], floor)
        invariant forall j :: k <= j < npend ==> pend[j] == was[j]
      {
        assert was[..k + 1][..k] == was[..k];
        if pend[k].upto > floor {
          pend[n] := pend[k];
          n := n + 1;
        }
        k := k + 1;
      }
      assert was[..npend] == was;
      npend := n;
    }

    /** The fields of Raise: clear, move, filter the pairs, then absorb. */
    method RaiseTo(floor: nat)
      requires Valid() && mark < floor
      modifies this, pend, ahead
      ensures Valid() && View() == Raise(old(View()), floor)
    {
      hide AheadOf;
      hide Absorb;
      hide Beyond;
      AbsorbRuns(floor, Above(AheadOf(ahead[..], mark), floor));
      SinkTo(floor);
      if hi < floor { hi := floor; }
      if dmark < floor { dmark := floor; }
      KeepBeyond(floor);
      var took := Connect();
      if took && wahead > wmax { wmax := wahead; }
      if nahead == 0 { wahead := 0; }
    }

    /** The fields and the answer of Floor. */
    method Floored(onApply: bool, synced: nat, floor: nat) returns (out: Outcome)
      requires Valid()
      modifies this, pend, ahead
      ensures Valid() && (View(), out) == Floor(old(View()), onApply, synced, floor)
    {
      if floor <= mark {
        return Dup;
      }
      RaiseTo(floor);
      if mark > floor { Confirm(onApply, synced); }
      out := New;
    }
  }
}
