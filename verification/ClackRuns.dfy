/** The table of numbering spaces (src/clack.c) over runs of calls: each space in it does what it would do
    alone. */
module ClackRuns {
  import opened Watermark
  import opened Clack

  datatype Call =
    | Applied(id: SpaceId, num: nat, w: nat)
    | Synced(to: nat)
    | Floored(id: SpaceId, floor: nat)
    | Restored(id: SpaceId, mark: nat)

  /** A space the table lacks is an empty one. */
  function SpaceOf(m: Marks, id: SpaceId): Space {
    var i := Find(m.rows, id);
    if i < 0 then EMPTY else m.rows[i].sp
  }

  predicate Known(m: Marks, id: SpaceId) { Find(m.rows, id) >= 0 }

  ghost predicate Sound(m: Marks) {
    |m.rows| <= SPACES && forall i, j :: 0 <= i < j < |m.rows| ==> m.rows[i].id != m.rows[j].id
  }

  lemma FoundAt(rows: seq<Row>, i: nat)
    requires i < |rows| && forall a, b :: 0 <= a < b < |rows| ==> rows[a].id != rows[b].id
    ensures Find(rows, rows[i].id) == i
  {
  }

  /** Finding or adding a row changes no space. */
  lemma GetMeans(m: Marks, id: SpaceId, x: SpaceId)
    requires Sound(m)
    ensures var (m', i) := Get(m, id);
      && Sound(m') && m'.onApply == m.onApply && m'.synced == m.synced && SpaceOf(m', x) == SpaceOf(m, x)
      && (i < 0 <==> !Known(m, id) && |m.rows| == SPACES)
      && (i >= 0 ==> i == Find(m'.rows, id) && Known(m', x) == (Known(m, x) || x == id))
      && (i < 0 ==> m' == m)
  {
    hide Find;
    var (m', i) := Get(m, id);
    if m' != m {
      FoundAt(m'.rows, i);
      var j := Find(m.rows, x);
      if j >= 0 { FoundAt(m'.rows, j); }
      else if x != id { NotFound(m'.rows, x); }
    }
  }

  lemma PutMeans(m: Marks, i: nat, sp: Space, x: SpaceId)
    requires Sound(m) && i < |m.rows|
    ensures var m' := Put(m, i, sp);
      Sound(m') && Known(m', x) == Known(m, x) && SpaceOf(m', x) == if x == m.rows[i].id then sp else SpaceOf(m, x)
  {
    hide Find;
    var m' := Put(m, i, sp);
    assert forall k :: 0 <= k < |m.rows| ==> m'.rows[k].id == m.rows[k].id;
    FoundAt(m.rows, i);
    FoundAt(m'.rows, i);
    var j := Find(m.rows, x);
    if j >= 0 { FoundAt(m'.rows, j); } else { NotFound(m'.rows, x); }
  }

  /** An apply reaches its own space alone, and answers as that space does; seq 0 is bad, and only a space
      that is new to a full table is refused. */
  lemma AppliedMeans(m: Marks, id: SpaceId, num: nat, w: nat, x: SpaceId)
    requires Sound(m)
    ensures var (m', a) := NoteApplied(m, id, num, w);
      && Sound(m') && m'.onApply == m.onApply && m'.synced == m.synced
      && (a == Bad <==> num == 0) && (a == Full <==> num > 0 && !Known(m, id) && |m.rows| == SPACES)
      && (a.Took? ==> num > 0 && a.out == Apply(SpaceOf(m, id), m.onApply, m.synced, num, w).1)
      && SpaceOf(m', x) ==
         (if x == id && a.Took? then Apply(SpaceOf(m, id), m.onApply, m.synced, num, w).0 else SpaceOf(m, x))
  {
    hide Apply;
    hide Find;
    if num > 0 {
      GetMeans(m, id, x);
      GetMeans(m, id, id);
      var (n, i) := Get(m, id);
      if i >= 0 { PutMeans(n, i, Apply(n.rows[i].sp, m.onApply, m.synced, num, w).0, x); }
    }
  }

  lemma FlooredMeans(m: Marks, id: SpaceId, floor: nat, x: SpaceId)
    requires Sound(m)
    ensures var (m', a) := NoteFloor(m, id, floor);
      && Sound(m') && m'.onApply == m.onApply && m'.synced == m.synced
      && a != Bad && (a == Full <==> !Known(m, id) && |m.rows| == SPACES)
      && (a.Took? ==> a.out == Floor(SpaceOf(m, id), m.onApply, m.synced, floor).1)
      && SpaceOf(m', x) ==
         (if x == id && a.Took? then Floor(SpaceOf(m, id), m.onApply, m.synced, floor).0 else SpaceOf(m, x))
  {
    hide Floor;
    hide Find;
    GetMeans(m, id, x);
    GetMeans(m, id, id);
    var (n, i) := Get(m, id);
    if i >= 0 { PutMeans(n, i, Floor(n.rows[i].sp, m.onApply, m.synced, floor).0, x); }
  }

  lemma RestoredMeans(m: Marks, id: SpaceId, mark: nat, x: SpaceId)
    requires Sound(m)
    ensures var (m', a) := NoteRestore(m, id, mark);
      && Sound(m') && m'.onApply == m.onApply && m'.synced == m.synced
      && (a == Full <==> !Known(m, id) && |m.rows| == SPACES)
      && SpaceOf(m', x) == (if x == id && a.Took? then Restore(mark) else SpaceOf(m, x))
  {
    hide Find;
    GetMeans(m, id, x);
    GetMeans(m, id, id);
    var (n, i) := Get(m, id);
    if i >= 0 { PutMeans(n, i, Restore(mark), x); }
  }

  /** A later sync reaches every space, an earlier one none. */
  lemma SyncedMeans(m: Marks, to: nat, x: SpaceId)
    requires Sound(m)
    ensures var m' := NoteSynced(m, to);
      && Sound(m') && m'.onApply == m.onApply && m'.synced == Max(m.synced, to)
      && SpaceOf(m', x) == (if to > m.synced then Sync(SpaceOf(m, x), to) else SpaceOf(m, x))
  {
    NothingWaits(to);
    hide Sync;
    hide Find;
    if to > m.synced {
      var m' := NoteSynced(m, to);
      assert forall k :: 0 <= k < |m.rows| ==> m'.rows[k].id == m.rows[k].id;
      var j := Find(m.rows, x);
      if j >= 0 { FoundAt(m'.rows, j); } else { NotFound(m'.rows, x); }
    }
  }

  lemma NothingWaits(to: nat)
    ensures Sync(EMPTY, to) == EMPTY
  {
  }

  // ---- runs ----

  function Do(m: Marks, c: Call): Marks {
    match c
    case Applied(id, num, w) => NoteApplied(m, id, num, w).0
    case Synced(to) => NoteSynced(m, to)
    case Floored(id, floor) => NoteFloor(m, id, floor).0
    case Restored(id, mark) => NoteRestore(m, id, mark).0
  }

  function After(onApply: bool, calls: seq<Call>): Marks {
    if calls == [] then Marks(onApply, 0, []) else Do(After(onApply, calls[..|calls| - 1]), calls[|calls| - 1])
  }

  /** The call as the space x alone would see it. */
  function Seen(c: Call, x: SpaceId): seq<Op> {
    match c
    case Applied(id, num, w) => if id == x then [Op.Applied(num, w)] else []
    case Synced(to) => [Op.Synced(to)]
    case Floored(id, floor) => if id == x then [Op.Floored(floor)] else []
    case Restored(id, mark) => if id == x then [Op.Restored(mark)] else []
  }

  function AllSeen(calls: seq<Call>, x: SpaceId): seq<Op> {
    if calls == [] then [] else AllSeen(calls[..|calls| - 1], x) + Seen(calls[|calls| - 1], x)
  }

  /** The table never had to refuse the space. */
  ghost predicate Room(onApply: bool, calls: seq<Call>, x: SpaceId) {
    forall i :: 0 <= i < |calls| ==> Known(After(onApply, calls[..i]), x) || |After(onApply, calls[..i]).rows| < SPACES
  }

  lemma RunOne(st: State, ops: seq<Op>, op: Op)
    ensures Run(st, ops + [op]) == Step(Run(st, ops), op)
  {
    hide Step;
    assert (ops + [op])[..|ops|] == ops;
  }

  lemma DoMeans(m: Marks, c: Call, x: SpaceId, st: State)
    requires Sound(m) && (Known(m, x) || |m.rows| < SPACES)
    requires st.sp == SpaceOf(m, x) && st.onApply == m.onApply && st.synced == m.synced
    ensures var m', st' := Do(m, c), if Seen(c, x) == [] then st else Step(st, Seen(c, x)[0]);
      Sound(m') && st'.sp == SpaceOf(m', x) && st'.onApply == m'.onApply && st'.synced == m'.synced
  {
    hide Apply;
    hide Floor;
    hide Sync;
    hide SpaceOf;
    hide Find;
    match c
    case Applied(id, num, w) => AppliedMeans(m, id, num, w, x);
    case Synced(to) => SyncedMeans(m, to, x);
    case Floored(id, floor) =>
      FlooredMeans(m, id, floor, x);
      FloorDup(st.sp, st.onApply, st.synced, floor);
    case Restored(id, mark) => RestoredMeans(m, id, mark, x);
  }

  lemma FloorDup(sp: Space, onApply: bool, synced: nat, floor: nat)
    ensures var (r, out) := Floor(sp, onApply, synced, floor); out == Dup ==> r == sp
  {
  }

  /** In every run of calls on any spaces, each space stands where its own calls, and the syncs, would
      have brought it alone. */
  lemma {:induction false} EachAlone(onApply: bool, calls: seq<Call>, x: SpaceId)
    requires Room(onApply, calls, x)
    ensures var m, st := After(onApply, calls), Run(Start(onApply, 0), AllSeen(calls, x));
      Sound(m) && SpaceOf(m, x) == st.sp && m.onApply == st.onApply && m.synced == st.synced
  {
    hide Do;
    hide Step;
    hide SpaceOf;
    hide Known;
    if calls == [] {
      assert SpaceOf(Marks(onApply, 0, []), x) == EMPTY by { NoSpace(onApply, x); }
    } else {
      var front, c := calls[..|calls| - 1], calls[|calls| - 1];
      assert forall i :: 0 <= i < |front| ==> front[..i] == calls[..i];
      EachAlone(onApply, front, x);
      var m, st := After(onApply, front), Run(Start(onApply, 0), AllSeen(front, x));
      DoMeans(m, c, x, st);
      var s := Seen(c, x);
      if s == [] {
        assert AllSeen(front, x) + s == AllSeen(front, x);
      } else {
        assert s == [s[0]];
        RunOne(Start(onApply, 0), AllSeen(front, x), s[0]);
      }
    }
  }

  lemma NoSpace(onApply: bool, x: SpaceId)
    ensures SpaceOf(Marks(onApply, 0, []), x) == EMPTY
  {
  }
}
