/** `struct clack` of src/clack.c: every numbering space this member knows, and how far its WAL
    is synced.  `Marks` is the value of the struct and its operations as functions, used by the
    fleet's runs; class Clack is the struct itself, proved to do the same in place. */
module Clack {
  import opened Watermark
  import opened WindowSpace

  const SPACES: nat := 1026

  datatype SpaceId = SpaceId(oid: nat, incarn: nat)

  datatype Row = Row(id: SpaceId, sp: Space)

  datatype Marks = Marks(onApply: bool, synced: nat, rows: seq<Row>)

  /** What a call answers: how the space took it, no room for a new space, or seq 0. */
  datatype Answer = Took(out: Outcome) | Full | Bad

  // ---- the struct as a value ----

  function Find(rows: seq<Row>, id: SpaceId): (i: int)
    ensures -1 <= i < |rows|
    ensures i >= 0 ==> rows[i].id == id
    ensures forall j :: 0 <= j < (if i < 0 then |rows| else i) ==> rows[j].id != id
  {
    if rows == [] then -1
    else if rows[0].id == id then 0
    else var i := Find(rows[1..], id); if i < 0 then -1 else i + 1
  }

  lemma NotFound(rows: seq<Row>, id: SpaceId)
    requires forall i :: 0 <= i < |rows| ==> rows[i].id != id
    ensures Find(rows, id) == -1
  {
  }

  /** The row of a space, appended empty when the table lacks it; -1 in a full table. */
  function Get(m: Marks, id: SpaceId): (Marks, int) {
    var i := Find(m.rows, id);
    if i >= 0 then (m, i)
    else if |m.rows| == SPACES then (m, -1)
    else (m.(rows := m.rows + [Row(id, EMPTY)]), |m.rows|)
  }

  function Put(m: Marks, i: nat, sp: Space): Marks
    requires i < |m.rows|
  {
    m.(rows := m.rows[i := m.rows[i].(sp := sp)])
  }

  function NoteApplied(m: Marks, id: SpaceId, num: nat, w: nat): (Marks, Answer) {
    if num == 0 then (m, Bad)
    else
      var (m', i) := Get(m, id);
      if i < 0 then (m', Full)
      else
        var (sp, out) := Apply(m'.rows[i].sp, m.onApply, m.synced, num, w);
        (Put(m', i, sp), Took(out))
  }

  /** The first n rows with the sync noted. */
  function SyncedRows(rows: seq<Row>, n: nat, to: nat): seq<Row> {
    seq(|rows|, i requires 0 <= i < |rows| => if i < n then rows[i].(sp := Sync(rows[i].sp, to)) else rows[i])
  }

  lemma NextRow(rows: seq<Row>, n: nat, to: nat)
    requires n < |rows|
    ensures SyncedRows(rows, n, to)[n] == rows[n]
    ensures SyncedRows(rows, n + 1, to) == SyncedRows(rows, n, to)[n := rows[n].(sp := Sync(rows[n].sp, to))]
  {
    hide Sync;
  }

  function NoteSynced(m: Marks, to: nat): Marks {
    if to <= m.synced then m else m.(synced := to, rows := SyncedRows(m.rows, |m.rows|, to))
  }

  function NoteFloor(m: Marks, id: SpaceId, floor: nat): (Marks, Answer) {
    var (m', i) := Get(m, id);
    if i < 0 then (m', Full)
    else
      var (sp, out) := Floor(m'.rows[i].sp, m.onApply, m.synced, floor);
      (Put(m', i, sp), Took(out))
  }

  function NoteRestore(m: Marks, id: SpaceId, mark: nat): (Marks, Answer) {
    var (m', i) := Get(m, id);
    if i < 0 then (m', Full) else (Put(m', i, Restore(mark)), Took(New))
  }

  // ---- the struct in memory ----

  class Clack {
    const onApply: bool
    var synced: nat
    var s: seq<NumberSpace>
    ghost var Repr: set<object>

    ghost predicate Valid()
      reads this, Repr
    {
      && this in Repr
      && |s| <= SPACES
      && (forall i :: 0 <= i < |s| ==> s[i] in Repr && s[i].pend in Repr && s[i].ahead in Repr && s[i].Valid())
      && (forall i, j :: 0 <= i < j < |s| ==>
            s[i] != s[j] && s[i].pend != s[j].pend && s[i].ahead != s[j].ahead)
    }

    ghost function View(): Marks
      requires Valid()
      reads this, Repr
    {
      Marks(onApply, synced, seq(|s|, i requires 0 <= i < |s| && Valid() reads this, Repr =>
                                   Row(SpaceId(s[i].oid, s[i].incarn), s[i].View())))
    }

    /** One space changed in place: the table is right, and differs in that row alone. */
    twostate lemma OneChanged(i: int)
      requires old(Valid()) && s == old(s) && Repr == old(Repr) && synced == old(synced)
      requires 0 <= i < |s| && s[i].Valid()
      requires forall j :: 0 <= j < |s| && j != i ==>
                 unchanged(s[j]) && unchanged(s[j].pend) && unchanged(s[j].ahead)
      ensures Valid() && View() == Put(old(View()), i, s[i].View())
    {
      assert forall j :: 0 <= j < |s| && j != i ==> s[j].Valid() && s[j].View() == old(s[j].View());
      assert Valid();
      assert View().rows == Put(old(View()), i, s[i].View()).rows;
    }

    twostate lemma OneAdded(new sp: NumberSpace)
      requires old(Valid()) && s == old(s) + [sp] && |s| <= SPACES && synced == old(synced)
      requires Repr == old(Repr) + {sp, sp.pend, sp.ahead}
      requires fresh(sp) && fresh(sp.pend) && fresh(sp.ahead) && sp.Valid()
      requires forall j :: 0 <= j < |old(s)| ==>
                 unchanged(old(s)[j]) && unchanged(old(s)[j].pend) && unchanged(old(s)[j].ahead)
      ensures Valid()
      ensures View() == old(View()).(rows := old(View()).rows + [Row(SpaceId(sp.oid, sp.incarn), sp.View())])
    {
      assert forall j :: 0 <= j < |old(s)| ==>
          s[j] == old(s)[j] && s[j].Valid() && s[j].View() == old(s[j].View());
      assert Valid();
      assert View().rows == old(View()).rows + [Row(SpaceId(sp.oid, sp.incarn), sp.View())];
    }

    constructor (onApply: bool)
      ensures Valid() && fresh(Repr) && View() == Marks(onApply, 0, [])
    {
      this.onApply := onApply;
      synced, s := 0, [];
      Repr := {this};
    }

    method FindSpace(id: SpaceId) returns (i: int)
      requires Valid()
      ensures i == Find(View().rows, id)
    {
      ghost var rows := View().rows;
      i := 0;
      while i < |s| && SpaceId(s[i].oid, s[i].incarn) != id
        invariant 0 <= i <= |s|
        invariant forall j :: 0 <= j < i ==> rows[j].id != id
      {
        i := i + 1;
      }
      if i == |s| { i := -1; } else { assert rows[i].id == id; }
    }

    /** The row's index after appending it if it was missing; -1 in a full table. */
    method GetSpace(id: SpaceId) returns (i: int)
      requires Valid()
      modifies this`s, this`Repr
      ensures Valid() && fresh(Repr - old(Repr)) && (View(), i) == Get(old(View()), id)
      ensures i >= 0 ==> i < |s|
    {
      i := FindSpace(id);
      if i < 0 && |s| < SPACES {
        var sp := new NumberSpace(id.oid, id.incarn);
        i := |s|;
        s := s + [sp];
        Repr := Repr + {sp, sp.pend, sp.ahead};
        OneAdded(sp);
      }
    }

    method Applied(id: SpaceId, num: nat, w: nat) returns (a: Answer)
      requires Valid()
      modifies Repr
      ensures Valid() && fresh(Repr - old(Repr)) && (View(), a) == NoteApplied(old(View()), id, num, w)
    {
      if num == 0 {
        return Bad;
      }
      var i := GetSpace(id);
      if i < 0 {
        return Full;
      }
      label before:
      var out := s[i].Applied(onApply, synced, num, w);
      OneChanged@before(i);
      a := Took(out);
    }

    method Synced(to: nat)
      requires Valid()
      modifies Repr
      ensures Valid() && Repr == old(Repr) && View() == NoteSynced(old(View()), to)
    {
      if to <= synced {
        return;
      }
      hide Sync;
      ghost var was := View().rows;
      synced := to;
      var i := 0;
      assert View().rows == was && was == SyncedRows(was, 0, to);
      while i < |s|
        invariant 0 <= i <= |s| && Valid() && synced == to && s == old(s) && Repr == old(Repr)
        invariant View().rows == SyncedRows(was, i, to)
      {
        label before:
        NextRow(was, i, to);
        s[i].Synced(to);
        OneChanged@before(i);
        i := i + 1;
      }
    }

    method FloorAt(id: SpaceId, floor: nat) returns (a: Answer)
      requires Valid()
      modifies Repr
      ensures Valid() && fresh(Repr - old(Repr)) && (View(), a) == NoteFloor(old(View()), id, floor)
    {
      var i := GetSpace(id);
      if i < 0 {
        return Full;
      }
      label before:
      var out := s[i].Floored(onApply, synced, floor);
      OneChanged@before(i);
      a := Took(out);
    }

    method RestoreTo(id: SpaceId, mark: nat) returns (a: Answer)
      requires Valid()
      modifies Repr
      ensures Valid() && fresh(Repr - old(Repr)) && (View(), a) == NoteRestore(old(View()), id, mark)
    {
      var i := GetSpace(id);
      if i < 0 {
        return Full;
      }
      label before:
      s[i].Restored(mark);
      OneChanged@before(i);
      a := Took(New);
    }

    /** The confirmed mark of the space, when it is known. */
    method ConfirmedMark(id: SpaceId) returns (known: bool, mark: nat)
      requires Valid()
      ensures known == (Find(View().rows, id) >= 0)
      ensures known ==> mark == View().rows[Find(View().rows, id)].sp.dmark
    {
      var i := FindSpace(id);
      known, mark := i >= 0, if i >= 0 then s[i].dmark else 0;
    }
  }
}
