/** The identity history of src/clhist.c: which daemons have been seen, in at most 1024 entries, the
    least recently seen making room. */
module History {
  import opened Bytes

  const MAX := 1024

  type Ident = seq<byte>

  datatype Sighting = Sighting(ident: Ident, node: nat)
  datatype Entry = Entry(ident: Ident, node: nat, seen: nat)

  // ---- what the table stands for ----

  /** When an identity was last noted, counting notes from 1; 0 for never. */
  function LastAt(notes: seq<Sighting>, x: Ident): (t: nat)
    ensures t <= |notes| && (t > 0 ==> notes[t - 1].ident == x)
    ensures forall i :: t <= i < |notes| ==> notes[i].ident != x
  {
    if notes == [] then 0
    else if notes[|notes| - 1].ident == x then |notes|
    else LastAt(notes[..|notes| - 1], x)
  }

  function Idents(notes: seq<Sighting>): (s: set<Ident>)
    ensures forall x :: x in s <==> LastAt(notes, x) > 0
  {
    if notes == [] then {} else Idents(notes[..|notes| - 1]) + {notes[|notes| - 1].ident}
  }

  /** The identities noted since x last was. */
  function Since(notes: seq<Sighting>, x: Ident): set<Ident> {
    set y | y in Idents(notes) && LastAt(notes, y) > LastAt(notes, x)
  }

  predicate Distinct(ents: seq<Entry>) {
    forall i, j :: 0 <= i < j < |ents| ==> ents[i].ident != ents[j].ident
  }

  predicate Holds(ents: seq<Entry>, x: Ident) { exists i :: 0 <= i < |ents| && ents[i].ident == x }

  predicate Right(e: Entry, notes: seq<Sighting>) {
    0 < e.seen == LastAt(notes, e.ident) && notes[e.seen - 1].node == e.node
  }

  predicate AllRight(ents: seq<Entry>, notes: seq<Sighting>) {
    forall i :: 0 <= i < |ents| ==> Right(ents[i], notes)
  }

  /** A noted identity that is not in the table was last noted before every one that is, and the
      table is full. */
  ghost predicate LeftOut(ents: seq<Entry>, notes: seq<Sighting>, x: Ident) {
    LastAt(notes, x) > 0 && !Holds(ents, x) ==>
      |ents| == MAX && forall i :: 0 <= i < |ents| ==> LastAt(notes, x) < ents[i].seen
  }

  ghost predicate Tracks(ents: seq<Entry>, notes: seq<Sighting>) {
    && |ents| <= MAX && Distinct(ents) && AllRight(ents, notes)
    && forall x: Ident :: LeftOut(ents, notes, x)
  }

  // ---- one note ----

  predicate IsOldest(ents: seq<Entry>, k: nat) {
    k < |ents| && forall i :: 0 <= i < |ents| ==> ents[k].seen <= ents[i].seen
  }

  lemma LastAtNext(notes: seq<Sighting>, s: Sighting, x: Ident)
    ensures LastAt(notes + [s], x) == if s.ident == x then |notes| + 1 else LastAt(notes, x)
  {
    assert (notes + [s])[..|notes|] == notes;
  }

  lemma StillRight(e: Entry, notes: seq<Sighting>, s: Sighting)
    requires Right(e, notes) && e.ident != s.ident
    ensures Right(e, notes + [s])
  {
    LastAtNext(notes, s, e.ident);
  }

  lemma NowRight(notes: seq<Sighting>, s: Sighting)
    ensures Right(Entry(s.ident, s.node, |notes| + 1), notes + [s])
  {
    LastAtNext(notes, s, s.ident);
  }

  function Placed(ents: seq<Entry>, k: nat, e: Entry): seq<Entry>
    requires k <= |ents|
  {
    if k < |ents| then ents[k := e] else ents + [e]
  }

  /** A slot for x: its own old entry, a free slot, or the oldest entry of a full table. */
  ghost predicate SlotFor(ents: seq<Entry>, x: Ident, k: nat) {
    if k < |ents| then ents[k].ident == x || (!Holds(ents, x) && |ents| == MAX && IsOldest(ents, k))
    else k == |ents| < MAX && !Holds(ents, x)
  }

  lemma DistinctKept(ents: seq<Entry>, e: Entry, k: nat)
    requires Distinct(ents) && SlotFor(ents, e.ident, k)
    ensures Distinct(Placed(ents, k, e))
  {
    hide IsOldest;
  }

  /** Putting the new sighting in its slot leaves a table that tracks the longer history. */
  lemma NoteTracks(ents: seq<Entry>, notes: seq<Sighting>, s: Sighting, k: nat)
    requires Tracks(ents, notes) && SlotFor(ents, s.ident, k)
    ensures Tracks(Placed(ents, k, Entry(s.ident, s.node, |notes| + 1)), notes + [s])
  {
    hide Right;
    hide LeftOut;
    hide Distinct;
    hide Holds;
    var e := Entry(s.ident, s.node, |notes| + 1);
    var ents' := Placed(ents, k, e);
    NowRight(notes, s);
    DistinctKept(ents, e, k);
    forall i | 0 <= i < |ents'| ensures Right(ents'[i], notes + [s]) {
      if i != k {
        NotAlso(ents, s.ident, k, i);
        StillRight(ents[i], notes, s);
      }
    }
    forall x: Ident ensures LeftOut(ents', notes + [s], x) {
      OneLeftOut(ents, notes, s, k, x);
    }
  }

  lemma NotAlso(ents: seq<Entry>, x: Ident, k: nat, i: nat)
    requires Distinct(ents) && SlotFor(ents, x, k) && i < |ents| && i != k
    ensures ents[i].ident != x
  {
  }

  lemma OneLeftOut(ents: seq<Entry>, notes: seq<Sighting>, s: Sighting, k: nat, x: Ident)
    requires Tracks(ents, notes) && SlotFor(ents, s.ident, k)
    ensures LeftOut(Placed(ents, k, Entry(s.ident, s.node, |notes| + 1)), notes + [s], x)
  {
    hide LastAt;
    hide Distinct;
    hide AllRight;
    var e := Entry(s.ident, s.node, |notes| + 1);
    LastAtNext(notes, s, x);
    assert LeftOut(ents, notes, x);
    var ents' := Placed(ents, k, e);
    if x == s.ident {
      assert ents'[k].ident == x;
    } else if !Holds(ents', x) && LastAt(notes, x) > 0 {
      if Holds(ents, x) {
        var i: nat :| i < |ents| && ents[i].ident == x;
        OnlyThere(ents, ents', k, i, x);
        Older(ents, notes, k);
        SeenIs(ents, notes, k);
      }
    }
  }

  lemma OnlyThere(ents: seq<Entry>, ents': seq<Entry>, k: nat, i: nat, x: Ident)
    requires i < |ents| && ents[i].ident == x && !Holds(ents', x)
    requires |ents| <= |ents'| && forall j :: 0 <= j < |ents| && j != k ==> ents'[j] == ents[j]
    ensures i == k
  {
  }

  lemma SeenIs(ents: seq<Entry>, notes: seq<Sighting>, k: nat)
    requires AllRight(ents, notes) && k < |ents|
    ensures ents[k].seen == LastAt(notes, ents[k].ident) <= |notes|
  {
    assert Right(ents[k], notes);
  }

  /** Distinct entries were seen at different times, so the oldest is older than all others. */
  lemma Older(ents: seq<Entry>, notes: seq<Sighting>, k: nat)
    requires Distinct(ents) && AllRight(ents, notes) && IsOldest(ents, k)
    ensures forall i :: 0 <= i < |ents| && i != k ==> ents[k].seen < ents[i].seen
  {
    forall i | 0 <= i < |ents| && i != k ensures ents[k].seen < ents[i].seen {
      assert Right(ents[i], notes) && Right(ents[k], notes);
    }
  }

  // ---- the least recently used is what goes ----

  function TableIdents(ents: seq<Entry>): (s: set<Ident>)
    ensures forall x :: x in s <==> Holds(ents, x)
  {
    set i | 0 <= i < |ents| :: ents[i].ident
  }

  lemma {:induction false} Cardinal(ents: seq<Entry>)
    requires Distinct(ents)
    ensures |TableIdents(ents)| == |ents|
    decreases |ents|
  {
    if ents != [] {
      var front, e := ents[..|ents| - 1], ents[|ents| - 1];
      Cardinal(front);
      assert TableIdents(ents) == TableIdents(front) + {e.ident} by {
        assert forall i :: 0 <= i < |front| ==> ents[i] == front[i];
      }
    }
  }

  lemma {:induction false} Subset(a: set<Ident>, b: set<Ident>)
    requires a <= b
    ensures |a| <= |b|
  {
    if a != {} {
      var x :| x in a;
      Subset(a - {x}, b - {x});
    }
  }

  lemma HeldIsRecent(ents: seq<Entry>, notes: seq<Sighting>, x: Ident)
    requires Tracks(ents, notes) && Holds(ents, x)
    ensures LastAt(notes, x) > 0 && |Since(notes, x)| < MAX
  {
    var i :| 0 <= i < |ents| && ents[i].ident == x;
    assert Right(ents[i], notes);
    var table := TableIdents(ents);
    forall y | y in Since(notes, x) ensures y in table - {x} {
      assert LeftOut(ents, notes, y);
    }
    Cardinal(ents);
    Subset(Since(notes, x), table - {x});
  }

  lemma RecentIsHeld(ents: seq<Entry>, notes: seq<Sighting>, x: Ident)
    requires Tracks(ents, notes) && !Holds(ents, x) && LastAt(notes, x) > 0
    ensures |Since(notes, x)| >= MAX
  {
    assert LeftOut(ents, notes, x);
    forall y | y in TableIdents(ents) ensures y in Since(notes, x) {
      var i :| 0 <= i < |ents| && ents[i].ident == y;
      assert Right(ents[i], notes);
    }
    Cardinal(ents);
    Subset(TableIdents(ents), Since(notes, x));
  }

  /** Noted, and fewer than 1024 others noted since: one of the 1024 most recent. */
  predicate Recent(notes: seq<Sighting>, x: Ident) { LastAt(notes, x) > 0 && |Since(notes, x)| < MAX }

  /** The table holds exactly the most recently noted distinct identities. */
  lemma ExactlyTheRecent(ents: seq<Entry>, notes: seq<Sighting>, x: Ident)
    requires Tracks(ents, notes)
    ensures Holds(ents, x) <==> Recent(notes, x)
  {
    hide Since;
    if Holds(ents, x) {
      HeldIsRecent(ents, notes, x);
    } else if LastAt(notes, x) > 0 {
      RecentIsHeld(ents, notes, x);
    }
  }
}
