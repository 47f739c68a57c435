/** The delete-acknowledgement plane as a whole: members that start, apply, sync, floor and beat,
    keepalives that are lost, duplicated, delayed and reordered, and the table an origin keeps
    of what they announced.  Every run keeps this: what the origin may forget, every member
    listed holds. */
module Fleet {
  import opened Watermark
  import opened Clack
  import opened FleetTable
  import opened Options

  // ---- one incarnation of one member ----

  /** Its watermarks, and for each space the account of what it recorded. */
  datatype Life = Life(marks: Marks, hist: map<SpaceId, History>)

  datatype LifeOp = DoApply(id: SpaceId, num: nat, w: nat) | DoSync(w: nat) | DoFloor(id: SpaceId, floor: nat)

  function HistOf(l: Life, id: SpaceId): History { if id in l.hist then l.hist[id] else NOTHING }

  function LifeStep(l: Life, op: LifeOp): Life {
    match op
    case DoApply(id, num, w) =>
      var (m, a) := NoteApplied(l.marks, id, num, w);
      if a.Took? then Life(m, l.hist[id := Noted(HistOf(l, id), num, w, a.out)]) else l.(marks := m)
    case DoSync(w) => l.(marks := NoteSynced(l.marks, w))
    case DoFloor(id, floor) =>
      var (m, a) := NoteFloor(l.marks, id, floor);
      if a == Took(New) then Life(m, l.hist[id := Vouched(HistOf(l, id), floor)]) else l.(marks := m)
  }

  /** A process start: the marks a snapshot left are restored before anything else happens. */
  function Boot(l: Life, restored: seq<(SpaceId, nat)>): Life {
    if restored == [] then l
    else
      var before := Boot(l, restored[..|restored| - 1]);
      var (id, mark) := restored[|restored| - 1];
      var (m, a) := NoteRestore(before.marks, id, mark);
      if a.Took? then Life(m, before.hist[id := History(map[], mark, mark)]) else before
  }

  function Newborn(onApply: bool): Life { Life(Marks(onApply, 0, []), map[]) }

  /** Each space is right about its own account, and no space is kept twice. */
  ghost predicate LifeGood(l: Life) {
    && (forall i, j :: 0 <= i < j < |l.marks.rows| ==> l.marks.rows[i].id != l.marks.rows[j].id)
    && (forall i :: 0 <= i < |l.marks.rows| ==>
          Good(l.marks.rows[i].sp, HistOf(l, l.marks.rows[i].id), l.marks.onApply, l.marks.synced))
    && (forall id :: id in l.hist ==> Find(l.marks.rows, id) >= 0)
  }

  /** The life confirms seqs 1..mark of the space. */
  predicate Confirms(l: Life, id: SpaceId, mark: nat) {
    var i := Find(l.marks.rows, id);
    i >= 0 && mark <= l.marks.rows[i].sp.dmark
  }

  // ---- the fleet ----

  datatype Keepalive = Keepalive(member: nat, incarn: nat, acks: bool, marks: seq<(SpaceId, nat)>)

  /** Every incarnation of every member that ever was, which one each member is in now, every
      keepalive ever sent, and an origin's table. */
  datatype Fleet = Fleet(lives: map<(nat, nat), Life>, current: map<nat, nat>, sent: set<Keepalive>, table: Table)

  datatype Action =
    | Started(member: nat, incarn: nat, onApply: bool, restored: seq<(SpaceId, nat)>)
    | Worked(member: nat, op: LifeOp)
    | Beat(member: nat, acks: bool, slice: seq<nat>)
    | Arrived(k: Keepalive, now: int)
    | Left(member: nat)

  function ReportAll(mb: Table, member: nat, marks: seq<(SpaceId, nat)>, now: int): Table {
    if marks == [] then mb
    else
      var n := |marks| - 1;
      Report(ReportAll(mb, member, marks[..n], now), member, marks[n].0, marks[n].1, now).0
  }

  /** What an arriving keepalive does to the table. */
  function Receive(mb: Table, k: Keepalive, now: int): Table {
    var (mb', rc) := Announce(mb, k.member, k.incarn);
    if rc < 0 then mb'
    else if !k.acks then Clear(mb', k.member)
    else ReportAll(mb', k.member, k.marks, now)
  }

  /** The confirmed marks at the given rows, as a keepalive carries them. */
  function Slice(m: Marks, rows: seq<nat>): (r: seq<(SpaceId, nat)>)
    requires forall i :: 0 <= i < |rows| ==> rows[i] < |m.rows|
    ensures |r| == |rows| && forall i :: 0 <= i < |rows| ==> r[i] == (m.rows[rows[i]].id, m.rows[rows[i]].sp.dmark)
  {
    if rows == [] then []
    else Slice(m, rows[..|rows| - 1])
         + [(m.rows[rows[|rows| - 1]].id, m.rows[rows[|rows| - 1]].sp.dmark)]
  }

  ghost predicate Enabled(f: Fleet, a: Action) {
    match a
    case Started(m, i, _, _) => (m, i) !in f.lives       // an incarnation is never used again
    case Worked(m, _) => m in f.current && (m, f.current[m]) in f.lives
    case Beat(m, _, slice) =>
      && m in f.current && (m, f.current[m]) in f.lives
      && forall i :: 0 <= i < |slice| ==> slice[i] < |f.lives[(m, f.current[m])].marks.rows|
    case Arrived(k, _) => k in f.sent                    // any number of times, in any order, or never
    case Left(_) => true
  }

  ghost function Act(f: Fleet, a: Action): Fleet
    requires Enabled(f, a)
  {
    match a
    case Started(m, i, onApply, restored) =>
      f.(lives := f.lives[(m, i) := Boot(Newborn(onApply), restored)], current := f.current[m := i])
    case Worked(m, op) =>
      var at := (m, f.current[m]);
      f.(lives := f.lives[at := LifeStep(f.lives[at], op)])
    case Beat(m, acks, slice) =>
      var at := (m, f.current[m]);
      f.(sent := f.sent + {Keepalive(m, f.current[m], acks, if acks then Slice(f.lives[at].marks, slice) else [])})
    case Arrived(k, now) => f.(table := Receive(f.table, k, now))
    case Left(m) => f.(table := Forget(f.table, m))
  }

  const NOBODY := Fleet(map[], map[], {}, [])

  /** A run from nothing, state by state. */
  ghost predicate IsRun(states: seq<Fleet>, run: seq<Action>) {
    && |states| == |run| + 1 && states[0] == NOBODY
    && forall i :: 0 <= i < |run| ==> Enabled(states[i], run[i]) && states[i + 1] == Act(states[i], run[i])
  }

  // ---- what every run keeps ----

  ghost predicate SentTrue(f: Fleet, k: Keepalive) {
    (k.member, k.incarn) in f.lives
    && forall e :: e in k.marks ==> Confirms(f.lives[(k.member, k.incarn)], e.0, e.1)
  }

  /** What the table says of a member, in the incarnation it holds for it, that life confirms. */
  ghost predicate TableTrue(f: Fleet, m: nat, id: SpaceId) {
    Says(f.table, m, id).Some? ==>
      && IncarnOf(f.table, m).Some? && (m, IncarnOf(f.table, m).value) in f.lives
      && Confirms(f.lives[(m, IncarnOf(f.table, m).value)], id, Says(f.table, m, id).value)
  }

  ghost predicate Sound(f: Fleet) {
    && Distinct(f.table)
    && (forall at :: at in f.lives ==> LifeGood(f.lives[at]))
    && (forall k :: k in f.sent ==> SentTrue(f, k))
    && (forall m, id :: TableTrue(f, m, id))
  }

  // ---- one life ----

  ghost predicate NoLess(l: Life, l': Life) {
    forall id, mark :: Confirms(l, id, mark) ==> Confirms(l', id, mark)
  }

  lemma FoundRow(rows: seq<Row>, i: nat)
    requires i < |rows| && forall a, b :: 0 <= a < b < |rows| ==> rows[a].id != rows[b].id
    ensures Find(rows, rows[i].id) == i
  {
  }

  /** The table after the space's row was found or made: as good as before. */
  lemma GetKeeps(l: Life, id: SpaceId)
    requires LifeGood(l) && Get(l.marks, id).1 >= 0
    ensures var (m, i) := Get(l.marks, id);
            && i < |m.rows| && m.rows[i].id == id
            && LifeGood(l.(marks := m)) && NoLess(l, l.(marks := m))
            && m.onApply == l.marks.onApply && m.synced == l.marks.synced
  {
    hide Good;
    hide Find;
    var (m, i) := Get(l.marks, id);
    StartIsGood(m.onApply, m.synced);
    var rows := l.marks.rows;
    if m != l.marks {
      assert forall k :: 0 <= k < |rows| ==> m.rows[k] == rows[k];
      forall id' | Find(rows, id') >= 0 ensures Find(m.rows, id') == Find(rows, id') {
        FoundRow(m.rows, Find(rows, id'));
      }
      FoundRow(m.rows, i);
    }
  }

  /** One space moved on: the life is as good as before, and confirms no less. */
  lemma PutKeeps(l: Life, i: nat, sp: Space, h: History)
    requires LifeGood(l) && i < |l.marks.rows|
    requires Good(sp, h, l.marks.onApply, l.marks.synced)
    ensures var l' := Life(Put(l.marks, i, sp), l.hist[l.marks.rows[i].id := h]);
            LifeGood(l') && (l.marks.rows[i].sp.dmark <= sp.dmark ==> NoLess(l, l'))
  {
    hide Good;
    hide Find;
    var rows := l.marks.rows;
    var l' := Life(Put(l.marks, i, sp), l.hist[rows[i].id := h]);
    var rows' := l'.marks.rows;
    assert forall k :: 0 <= k < |rows| ==> rows'[k].id == rows[k].id;
    forall id ensures Find(rows', id) == Find(rows, id) {
      var k := Find(rows, id);
      if k >= 0 { FoundRow(rows', k); } else { NotFound(rows', id); }
    }
  }

  lemma ApplyLife(l: Life, id: SpaceId, num: nat, w: nat)
    requires LifeGood(l)
    ensures var l' := LifeStep(l, DoApply(id, num, w));
            LifeGood(l') && NoLess(l, l')
  {
    hide Good;
    var (m, i) := Get(l.marks, id);
    if num > 0 && i >= 0 {
      GetKeeps(l, id);
      var made := l.(marks := m);
      var h := HistOf(made, id);
      ApplyKeeps(m.rows[i].sp, h, m.onApply, m.synced, num, w);
      ApplyRaises(m.rows[i].sp, h, m.onApply, m.synced, num, w);
      var (sp, out) := Apply(m.rows[i].sp, m.onApply, m.synced, num, w);
      PutKeeps(made, i, sp, Noted(h, num, w, out));
    }
  }

  lemma FloorLife(l: Life, id: SpaceId, floor: nat)
    requires LifeGood(l)
    ensures var l' := LifeStep(l, DoFloor(id, floor));
            LifeGood(l') && NoLess(l, l')
  {
    hide Good;
    var (m, i) := Get(l.marks, id);
    if i >= 0 {
      GetKeeps(l, id);
      var made := l.(marks := m);
      var h := HistOf(made, id);
      if floor > m.rows[i].sp.mark {
        FloorKeeps(m.rows[i].sp, h, m.onApply, m.synced, floor);
        var (sp, out) := Floor(m.rows[i].sp, m.onApply, m.synced, floor);
        PutKeeps(made, i, sp, Vouched(h, floor));
      } else {
        assert Put(m, i, m.rows[i].sp) == m;
      }
    }
  }

  lemma SyncLife(l: Life, to: nat)
    requires LifeGood(l)
    ensures var l' := LifeStep(l, DoSync(to));
            LifeGood(l') && NoLess(l, l')
  {
    hide Good;
    hide Find;
    if to > l.marks.synced {
      var rows := l.marks.rows;
      var l' := LifeStep(l, DoSync(to));
      var rows' := l'.marks.rows;
      forall k | 0 <= k < |rows|
        ensures rows'[k].id == rows[k].id && rows[k].sp.dmark <= rows'[k].sp.dmark
        ensures Good(rows'[k].sp, HistOf(l', rows'[k].id), l.marks.onApply, to)
      {
        SyncGood(rows[k].sp, HistOf(l, rows[k].id), l.marks.onApply, l.marks.synced, to);
      }
      forall id ensures Find(rows', id) == Find(rows, id) {
        var k := Find(rows, id);
        if k >= 0 { FoundRow(rows', k); } else { NotFound(rows', id); }
      }
    }
  }

  /** Whatever a life does, it stays right about every space and confirms no less. */
  lemma LifeStepKeeps(l: Life, op: LifeOp)
    requires LifeGood(l)
    ensures LifeGood(LifeStep(l, op)) && NoLess(l, LifeStep(l, op))
  {
    match op
    case DoApply(id, num, w) => ApplyLife(l, id, num, w);
    case DoSync(w) => SyncLife(l, w);
    case DoFloor(id, floor) => FloorLife(l, id, floor);
  }

  lemma {:induction false} BootIsGood(onApply: bool, restored: seq<(SpaceId, nat)>)
    ensures LifeGood(Boot(Newborn(onApply), restored))
  {
    hide Good;
    if restored != [] {
      var before := Boot(Newborn(onApply), restored[..|restored| - 1]);
      BootIsGood(onApply, restored[..|restored| - 1]);
      var (id, mark) := restored[|restored| - 1];
      var (m, i) := Get(before.marks, id);
      if i >= 0 {
        GetKeeps(before, id);
        RestoreGood(mark, m.onApply, m.synced);
        PutKeeps(before.(marks := m), i, Restore(mark), History(map[], mark, mark));
      }
    }
  }

  // ---- the table ----

  lemma {:induction false} ReportAllMeans(mb: Table, member: nat, marks: seq<(SpaceId, nat)>, now: int, x: nat, id: SpaceId)
    requires Distinct(mb)
    ensures var mb' := ReportAll(mb, member, marks, now);
            && Distinct(mb') && IncarnOf(mb', x) == IncarnOf(mb, x)
            && (Says(mb', x, id) == Says(mb, x, id)
                || (x == member && Says(mb', x, id).Some? && (id, Says(mb', x, id).value) in marks))
  {
    hide IncarnOf;
    hide EntryOf;
    hide Report;
    if marks != [] {
      var n := |marks| - 1;
      ReportAllMeans(mb, member, marks[..n], now, x, id);
      var mid := ReportAll(mb, member, marks[..n], now);
      ReportMeans(mid, member, marks[n].0, marks[n].1, now, x, id);
    }
  }

  /** After a keepalive arrives the table says of a member only what it said before of the same
      incarnation, or what that keepalive carried. */
  lemma ReceiveMeans(mb: Table, k: Keepalive, now: int, x: nat, id: SpaceId)
    requires Distinct(mb)
    ensures var mb' := Receive(mb, k, now);
            && Distinct(mb')
            && (Says(mb', x, id).Some? ==>
                  || (IncarnOf(mb', x) == IncarnOf(mb, x) && Says(mb', x, id) == Says(mb, x, id))
                  || (x == k.member && IncarnOf(mb', x) == Some(k.incarn) && (id, Says(mb', x, id).value) in k.marks))
  {
    hide IncarnOf;
    hide EntryOf;
    AnnounceMeans(mb, k.member, k.incarn, x, id);
    var (mid, rc) := Announce(mb, k.member, k.incarn);
    if rc >= 0 {
      if k.acks {
        ReportAllMeans(mid, k.member, k.marks, now, x, id);
      } else {
        ClearMeans(mid, k.member, x, id);
      }
    }
  }

  // ---- the fleet's runs ----

  /** Lives only ever confirm more, so what was true of them stays true. */
  lemma LivesGrow(f: Fleet, g: Fleet)
    requires Sound(f) && g.sent == f.sent && g.table == f.table
    requires forall at :: at in f.lives ==> at in g.lives && NoLess(f.lives[at], g.lives[at])
    requires forall at :: at in g.lives ==> LifeGood(g.lives[at])
    ensures Sound(g)
  {
    hide LifeGood;
    hide Confirms;
    hide Says;
    hide IncarnOf;
    hide Distinct;
    assert forall k :: k in f.sent ==> SentTrue(f, k);
    forall m, id ensures TableTrue(g, m, id) {
      assert TableTrue(f, m, id);
    }
  }

  lemma {:induction false} SliceConfirmed(l: Life, rows: seq<nat>)
    requires LifeGood(l) && forall i :: 0 <= i < |rows| ==> rows[i] < |l.marks.rows|
    ensures forall e :: e in Slice(l.marks, rows) ==> Confirms(l, e.0, e.1)
  {
    if rows != [] {
      SliceConfirmed(l, rows[..|rows| - 1]);
      FoundRow(l.marks.rows, rows[|rows| - 1]);
    }
  }

  lemma ArrivedKeeps(f: Fleet, k: Keepalive, now: int)
    requires Sound(f) && k in f.sent
    ensures Sound(f.(table := Receive(f.table, k, now)))
  {
    hide LifeGood;
    hide Confirms;
    hide Says;
    hide IncarnOf;
    hide Distinct;
    hide Receive;
    var g := f.(table := Receive(f.table, k, now));
    assert SentTrue(f, k);
    forall m, id ensures TableTrue(g, m, id) {
      ReceiveMeans(f.table, k, now, m, id);
      assert TableTrue(f, m, id);
    }
    ReceiveMeans(f.table, k, now, 0, SpaceId(0, 0));
    assert forall q :: q in g.sent ==> SentTrue(f, q) && SentTrue(g, q);
  }

  lemma LeftKeeps(f: Fleet, member: nat)
    requires Sound(f)
    ensures Sound(f.(table := Forget(f.table, member)))
  {
    hide LifeGood;
    hide Confirms;
    hide IncarnOf;
    hide EntryOf;
    hide Distinct;
    hide Forget;
    var g := f.(table := Forget(f.table, member));
    forall m, id ensures TableTrue(g, m, id) {
      ForgetMeans(f.table, member, m, id);
      assert TableTrue(f, m, id);
    }
    ForgetMeans(f.table, member, 0, SpaceId(0, 0));
    assert forall q :: q in g.sent ==> SentTrue(f, q) && SentTrue(g, q);
  }

  lemma BeatKeeps(f: Fleet, member: nat, acks: bool, slice: seq<nat>)
    requires Sound(f) && Enabled(f, Beat(member, acks, slice))
    ensures Sound(Act(f, Beat(member, acks, slice)))
  {
    var g := Act(f, Beat(member, acks, slice));
    SliceConfirmed(f.lives[(member, f.current[member])], slice);
    hide LifeGood;
    hide Confirms;
    hide Says;
    hide IncarnOf;
    hide Distinct;
    hide Slice;
    forall q | q in g.sent ensures SentTrue(g, q) {
      if q in f.sent { assert SentTrue(f, q); }
    }
    forall m, id ensures TableTrue(g, m, id) {
      assert TableTrue(f, m, id);
    }
  }

  lemma ActKeeps(f: Fleet, a: Action)
    requires Sound(f) && Enabled(f, a)
    ensures Sound(Act(f, a))
  {
    hide LifeGood;
    hide Confirms;
    hide TableTrue;
    hide SentTrue;
    match a
    case Started(m, i, onApply, restored) =>
      BootIsGood(onApply, restored);
      LivesGrow(f.(current := f.current[m := i]), Act(f, a)) by {
        CurrentIsFree(f, f.current[m := i]);
      }
    case Worked(m, op) =>
      LifeStepKeeps(f.lives[(m, f.current[m])], op);
      LivesGrow(f, Act(f, a));
    case Beat(m, acks, slice) => BeatKeeps(f, m, acks, slice);
    case Arrived(k, now) => ArrivedKeeps(f, k, now);
    case Left(m) => LeftKeeps(f, m);
  }

  lemma CurrentIsFree(f: Fleet, current: map<nat, nat>)
    requires Sound(f)
    ensures Sound(f.(current := current))
  {
    hide LifeGood;
    hide Confirms;
    hide Says;
    hide IncarnOf;
    hide Distinct;
    var g := f.(current := current);
    forall m, id ensures TableTrue(g, m, id) {
      assert TableTrue(f, m, id);
    }
    assert forall q :: q in g.sent ==> SentTrue(f, q) && SentTrue(g, q);
  }

  lemma {:induction false} RunIsSound(states: seq<Fleet>, run: seq<Action>, n: nat)
    requires IsRun(states, run) && n < |states|
    ensures Sound(states[n])
  {
    hide Act;
    hide Enabled;
    if n > 0 {
      RunIsSound(states, run, n - 1);
      ActKeeps(states[n - 1], run[n - 1]);
    }
  }

  /** Fleet safety.  In every run - keepalives lost, duplicated, delayed and reordered, members
      restarted - when the lowest mark over a list of members is at least s, every member
      listed, in the incarnation the table holds for it, has seq s: applied there with its WAL
      record synced, or vouched for by a floor or a restore. */
  lemma ForgettingIsSafe(states: seq<Fleet>, run: seq<Action>, n: nat, id: SpaceId, members: seq<nat>,
                         lo: nat, m: nat, s: nat)
    requires IsRun(states, run) && n < |states|
    requires IsLowest(states[n].table, id, members, lo)
    requires m in members && 1 <= s <= lo
    ensures var f := states[n];
            && IncarnOf(f.table, m).Some? && (m, IncarnOf(f.table, m).value) in f.lives
            && var l := f.lives[(m, IncarnOf(f.table, m).value)];
               Held(HistOf(l, id), l.marks.onApply, l.marks.synced, s)
  {
    RunIsSound(states, run, n);
    var f := states[n];
    assert TableTrue(f, m, id);
    assert Says(f.table, m, id).Some? && s <= Says(f.table, m, id).value;
    var l := f.lives[(m, IncarnOf(f.table, m).value)];
    ConfirmsHolds(l, id, s);
  }

  lemma ConfirmsHolds(l: Life, id: SpaceId, s: nat)
    requires LifeGood(l) && s >= 1 && Confirms(l, id, s)
    ensures Held(HistOf(l, id), l.marks.onApply, l.marks.synced, s)
  {
    var sp := l.marks.rows[Find(l.marks.rows, id)].sp;
    assert Good(sp, HistOf(l, id), l.marks.onApply, l.marks.synced);
  }

  /** While the table holds the member's current incarnation, it is the running process that has seq s. */
  lemma RunningLifeHolds(states: seq<Fleet>, run: seq<Action>, n: nat, id: SpaceId, members: seq<nat>,
                         lo: nat, m: nat, s: nat)
    requires IsRun(states, run) && n < |states|
    requires IsLowest(states[n].table, id, members, lo)
    requires m in members && 1 <= s <= lo
    requires m in states[n].current && IncarnOf(states[n].table, m) == Some(states[n].current[m])
    ensures var f := states[n];
            && (m, f.current[m]) in f.lives
            && var l := f.lives[(m, f.current[m])];
               Held(HistOf(l, id), l.marks.onApply, l.marks.synced, s)
  {
    hide IsLowest;
    ForgettingIsSafe(states, run, n, id, members, lo, m, s);
  }

  const SEVEN := SpaceId(7, 1)
  const ONE := Space(1, 1, 1, 0, 0, [], {})
  const LIVED := Life(Marks(true, 0, [Row(SEVEN, ONE)]), map[SEVEN := History(map[1 := 0], 0, 1)])
  const BEAT := Keepalive(3, 1, true, [(SEVEN, 1)])
  const HEARD := FMember(3, 1, [FMark(SEVEN, 1, 0)])

  lemma OneDelete()
    ensures LifeStep(Newborn(true), DoApply(SEVEN, 1, 0)) == LIVED && Slice(LIVED.marks, [0]) == BEAT.marks
  {
    assert Absorb(1, {}) == (1, {});
    assert Apply(EMPTY, true, 0, 1, 0) == (ONE, New);
    var m := Marks(true, 0, []);
    assert [] + [Row(SEVEN, EMPTY)] == [Row(SEVEN, EMPTY)];
    assert Get(m, SEVEN) == (Marks(true, 0, [Row(SEVEN, EMPTY)]), 0);
    assert [Row(SEVEN, EMPTY)][0 := Row(SEVEN, ONE)] == [Row(SEVEN, ONE)];
    assert map[][SEVEN := History(map[1 := 0], 0, 1)] == map[SEVEN := History(map[1 := 0], 0, 1)];
    assert [0][..0] == [];
    assert Slice(LIVED.marks, [0]) == Slice(LIVED.marks, [0][..0]) + [(SEVEN, 1)];
  }

  lemma OneBeat()
    ensures Receive([], BEAT, 0) == [HEARD] && IsLowest([HEARD], SEVEN, [3], 1)
  {
    var new_ := FMember(3, 1, []);
    assert [] + [new_] == [new_];
    assert Announce([], 3, 1) == ([new_], 0);
    assert FindMember([new_], 3) == 0 && FindMark([], SEVEN) == -1;
    assert [] + [FMark(SEVEN, 1, 0)] == [FMark(SEVEN, 1, 0)] && [new_][0 := HEARD] == [HEARD];
    assert Report([new_], 3, SEVEN, 1, 0).0 == [HEARD];
    assert BEAT.marks[..0] == [];
    assert ReportAll([new_], 3, BEAT.marks, 0) == Report(ReportAll([new_], 3, BEAT.marks[..0], 0), 3, SEVEN, 1, 0).0;
    assert FindMember([HEARD], 3) == 0 && FindMark(HEARD.marks, SEVEN) == 0;
    assert Says([HEARD], 3, SEVEN) == Some(1);
  }

  /** Otherwise it need not be: a member applies seq 1, beats, and restarts with nothing; the keepalive
      of the life before arrives, and the lowest mark is 1. */
  lemma OldLifeIsCounted() returns (states: seq<Fleet>, run: seq<Action>)
    ensures IsRun(states, run) && |run| == 5
    ensures var f := states[5];
            && IsLowest(f.table, SEVEN, [3], 1)
            && 3 in f.current && (3, f.current[3]) in f.lives
            && var l := f.lives[(3, f.current[3])];
               !Held(HistOf(l, SEVEN), l.marks.onApply, l.marks.synced, 1)
  {
    OneDelete();
    OneBeat();
    hide LifeStep;
    hide Slice;
    hide Receive;
    hide IsLowest;
    var born := Newborn(true);
    var f1 := Fleet(map[(3, 1) := born], map[3 := 1], {}, []);
    var f2 := f1.(lives := map[(3, 1) := LIVED]);
    var f3 := f2.(sent := {BEAT});
    var f4 := f3.(lives := map[(3, 1) := LIVED, (3, 2) := born], current := map[3 := 2]);
    var f5 := f4.(table := [HEARD]);
    states := [NOBODY, f1, f2, f3, f4, f5];
    run := [Started(3, 1, true, []), Worked(3, DoApply(SEVEN, 1, 0)), Beat(3, true, [0]), Started(3, 2, true, []),
            Arrived(BEAT, 0)];
    assert Act(NOBODY, run[0]) == f1;
    assert Act(f1, run[1]) == f2;
    assert Act(f2, run[2]) == f3;
    assert Act(f3, run[3]) == f4;
    assert Act(f4, run[4]) == f5;
  }

  // ---- what a keepalive that arrives leaves in the table ----

  /** The last mark the list gives the space. */
  function LastOf(marks: seq<(SpaceId, nat)>, id: SpaceId): Option<nat> {
    if marks == [] then None
    else
      var n := |marks| - 1;
      if marks[n].0 == id then Some(marks[n].1) else LastOf(marks[..n], id)
  }

  lemma {:induction false} ReportsArrive(mb: Table, member: nat, marks: seq<(SpaceId, nat)>, now: int, id: SpaceId)
    requires Distinct(mb) && IncarnOf(mb, member).Some? && Spaces(mb, member) + |marks| <= SPACES
    ensures var mb' := ReportAll(mb, member, marks, now);
      && Distinct(mb') && IncarnOf(mb', member) == IncarnOf(mb, member)
      && Spaces(mb', member) <= Spaces(mb, member) + |marks|
      && Says(mb', member, id) == if LastOf(marks, id).Some? then LastOf(marks, id) else Says(mb, member, id)
  {
    hide IncarnOf;
    hide EntryOf;
    hide Report;
    hide Spaces;
    if marks != [] {
      var n := |marks| - 1;
      ReportsArrive(mb, member, marks[..n], now, id);
      var mid := ReportAll(mb, member, marks[..n], now);
      ReportMeans(mid, member, marks[n].0, marks[n].1, now, member, id);
      ReportMeans(mid, member, marks[n].0, marks[n].1, now, member, marks[n].0);
      OneSpaceMore(mid, member, marks[n].0, marks[n].1, now);
    }
  }

  lemma OneSpaceMore(mb: Table, member: nat, id: SpaceId, mark: nat, now: int)
    ensures Spaces(Report(mb, member, id, mark, now).0, member) <= Spaces(mb, member) + 1
  {
    var i := FindMember(mb, member);
    var mb' := Report(mb, member, id, mark, now).0;
    if i >= 0 {
      assert mb'[i].member == member && forall j :: 0 <= j < i ==> mb'[j].member != member;
      assert FindMember(mb', member) == i;
    }
  }

  /** The keepalive of a member the table has, or has room for, is taken whole: its incarnation, and every
      mark it carries; what it does not carry stays if the incarnation is the same, and one that carries no
      marks at all clears them. The room for spaces is what a keepalive within bounds needs. */
  lemma KeepaliveIsTaken(mb: Table, k: Keepalive, now: int, id: SpaceId)
    requires Distinct(mb) && (IncarnOf(mb, k.member).Some? || |mb| < MEMBERS)
    requires Spaces(mb, k.member) + |k.marks| <= SPACES
    ensures var mb' := Receive(mb, k, now);
      && IncarnOf(mb', k.member) == Some(k.incarn)
      && Says(mb', k.member, id) ==
         if !k.acks then None
         else if LastOf(k.marks, id).Some? then LastOf(k.marks, id)
         else if IncarnOf(mb, k.member) == Some(k.incarn) then Says(mb, k.member, id) else None
  {
    AnnounceMeans(mb, k.member, k.incarn, k.member, id);
    AnnouncedSpaces(mb, k.member, k.incarn);
    hide IncarnOf;
    hide EntryOf;
    hide Announce;
    hide Spaces;
    var mid := Announce(mb, k.member, k.incarn).0;
    if k.acks { ReportsArrive(mid, k.member, k.marks, now, id); }
    else { ClearMeans(mid, k.member, k.member, id); }
  }

  lemma AnnouncedSpaces(mb: Table, member: nat, incarn: nat)
    requires Distinct(mb)
    ensures Spaces(Announce(mb, member, incarn).0, member) <= Spaces(mb, member)
  {
    var mb' := Announce(mb, member, incarn).0;
    var i := FindMember(mb, member);
    if mb' != mb { OneRowMeans(mb, mb', member, member); }
  }
}
