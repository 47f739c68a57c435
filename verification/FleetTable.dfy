/** src/clackf.c: the table an origin builds from keepalives - per member its incarnation and, per
    numbering space, the mark last announced - with the queries over it. */
module FleetTable {
  import opened Clack
  import opened Options

  const MEMBERS: nat := 513
  const MAX_MARK: nat := 0xFFFF_FFFF_FFFF_FFFF

  datatype FMark = FMark(id: SpaceId, mark: nat, moved: int)

  datatype FMember = FMember(member: nat, incarn: nat, marks: seq<FMark>)

  type Table = seq<FMember>

  // ---- the table as a value ----

  function FindMember(mb: Table, member: nat): (i: int)
    ensures -1 <= i < |mb|
    ensures i >= 0 ==> mb[i].member == member
    ensures forall j :: 0 <= j < (if i < 0 then |mb| else i) ==> mb[j].member != member
  {
    if mb == [] then -1
    else if mb[0].member == member then 0
    else var i := FindMember(mb[1..], member); if i < 0 then -1 else i + 1
  }

  function FindMark(marks: seq<FMark>, id: SpaceId): (i: int)
    ensures -1 <= i < |marks|
    ensures i >= 0 ==> marks[i].id == id
    ensures forall j :: 0 <= j < (if i < 0 then |marks| else i) ==> marks[j].id != id
  {
    if marks == [] then -1
    else if marks[0].id == id then 0
    else var i := FindMark(marks[1..], id); if i < 0 then -1 else i + 1
  }

  /** The row's incarnation is set; its marks stay only if that changes nothing. */
  function Announce(mb: Table, member: nat, incarn: nat): (Table, int) {
    var i := FindMember(mb, member);
    if i < 0 then
      if |mb| == MEMBERS then (mb, -1) else (mb + [FMember(member, incarn, [])], 0)
    else if mb[i].incarn == incarn then (mb, 0)
    else (mb[i := FMember(member, incarn, [])], 1)
  }

  function Report(mb: Table, member: nat, id: SpaceId, mark: nat, now: int): (Table, int) {
    var i := FindMember(mb, member);
    if i < 0 then (mb, -1)
    else
      var marks := mb[i].marks;
      var k := FindMark(marks, id);
      if k >= 0 then
        var moved := if mark != marks[k].mark then now else marks[k].moved;
        (mb[i := mb[i].(marks := marks[k := FMark(id, mark, moved)])], if mark < marks[k].mark then 1 else 0)
      else if |marks| == SPACES then (mb, -1)
      else (mb[i := mb[i].(marks := marks + [FMark(id, mark, now)])], 0)
  }

  function Clear(mb: Table, member: nat): Table {
    var i := FindMember(mb, member);
    if i < 0 then mb else mb[i := mb[i].(marks := [])]
  }

  function Forget(mb: Table, member: nat): Table {
    var i := FindMember(mb, member);
    if i < 0 then mb else mb[i := mb[|mb| - 1]][..|mb| - 1]
  }

  // ---- what the table says ----

  function IncarnOf(mb: Table, member: nat): Option<nat> {
    var i := FindMember(mb, member);
    if i < 0 then None else Some(mb[i].incarn)
  }

  function EntryOf(mb: Table, member: nat, id: SpaceId): Option<FMark> {
    var i := FindMember(mb, member);
    if i < 0 then None
    else var k := FindMark(mb[i].marks, id); if k < 0 then None else Some(mb[i].marks[k])
  }

  function Says(mb: Table, member: nat, id: SpaceId): Option<nat> {
    var e := EntryOf(mb, member, id);
    if e.None? then None else Some(e.value.mark)
  }

  /** When that mark last changed. */
  function ChangedAt(mb: Table, member: nat, id: SpaceId): Option<int> {
    var e := EntryOf(mb, member, id);
    if e.None? then None else Some(e.value.moved)
  }

  /** For how many spaces the member has said something. */
  function Spaces(mb: Table, member: nat): nat {
    var i := FindMember(mb, member);
    if i < 0 then 0 else |mb[i].marks|
  }

  ghost predicate Distinct(mb: Table) {
    && (forall i, j :: 0 <= i < j < |mb| ==> mb[i].member != mb[j].member)
    && |mb| <= MEMBERS
    && forall i :: 0 <= i < |mb| ==> |mb[i].marks| <= SPACES
  }

  lemma FoundAt(mb: Table, x: nat, i: nat)
    requires Distinct(mb) && i < |mb| && mb[i].member == x
    ensures FindMember(mb, x) == i
  {
  }

  /** mb' is mb with the member's row changed, or added at the end. */
  ghost predicate OneRow(mb: Table, mb': Table, member: nat) {
    var i := FindMember(mb, member);
    && Distinct(mb) && Distinct(mb')
    && |mb'| == (if i >= 0 then |mb| else |mb| + 1)
    && mb'[if i >= 0 then i else |mb|].member == member
    && forall k :: 0 <= k < |mb| && k != i ==> mb'[k] == mb[k]
  }

  lemma OneRowMeans(mb: Table, mb': Table, member: nat, x: nat)
    requires OneRow(mb, mb', member)
    ensures x == member ==> FindMember(mb', x) == if FindMember(mb, x) >= 0 then FindMember(mb, x) else |mb|
    ensures x != member ==>
              var i := FindMember(mb, x);
              FindMember(mb', x) == i && (i >= 0 ==> mb'[i] == mb[i])
  {
    hide FindMember;
    var i := FindMember(mb, x);
    assert i >= 0 && x != member ==> i != FindMember(mb, member);
    if x == member {
      FoundAt(mb', x, if i >= 0 then i else |mb|);
    } else if i >= 0 {
      FoundAt(mb', x, i);
    } else {
      forall k | 0 <= k < |mb'| ensures mb'[k].member != x {
        assert k < |mb| && k != FindMember(mb, member) ==> mb'[k] == mb[k];
      }
    }
  }

  /** A keepalive changes what one member says, and only by forgetting all of it: when it names
      another incarnation, or the member is new. */
  lemma AnnounceMeans(mb: Table, member: nat, incarn: nat, x: nat, id: SpaceId)
    requires Distinct(mb)
    ensures var (mb', rc) := Announce(mb, member, incarn);
            && Distinct(mb')
            && (rc < 0 <==> IncarnOf(mb, member).None? && |mb| == MEMBERS)
            && (rc == 1 <==> IncarnOf(mb, member).Some? && IncarnOf(mb, member) != Some(incarn))
            && IncarnOf(mb', x) == (if x == member && rc >= 0 then Some(incarn) else IncarnOf(mb, x))
            && EntryOf(mb', x, id) ==
                 (if x == member && IncarnOf(mb, member) != Some(incarn) then None else EntryOf(mb, x, id))
  {
    var (mb', rc) := Announce(mb, member, incarn);
    if mb' != mb { OneRowMeans(mb, mb', member, x); }
  }

  /** A report sets one mark of one member - never of another incarnation than the one held -
      and answers 1 exactly when that mark went down. */
  lemma ReportMeans(mb: Table, member: nat, id: SpaceId, mark: nat, now: int, x: nat, id': SpaceId)
    requires Distinct(mb)
    ensures var (mb', rc) := Report(mb, member, id, mark, now);
            && Distinct(mb')
            && IncarnOf(mb', x) == IncarnOf(mb, x)
            && (rc < 0 ==> mb' == mb)
            && (rc == 1 <==> Says(mb, member, id).Some? && mark < Says(mb, member, id).value)
            && (rc < 0 <==> IncarnOf(mb, member).None? || (EntryOf(mb, member, id).None? && Spaces(mb, member) == SPACES))
            && (rc >= 0 && x == member && id' == id ==> Says(mb', x, id') == Some(mark))
            && (rc >= 0 && x == member && id' == id && Says(mb, x, id') != Some(mark) ==> ChangedAt(mb', x, id') == Some(now))
            && (!(x == member && id' == id) ==> EntryOf(mb', x, id') == EntryOf(mb, x, id'))
            && (Says(mb', x, id') == Says(mb, x, id') ==> EntryOf(mb', x, id') == EntryOf(mb, x, id'))
  {
    var (mb', rc) := Report(mb, member, id, mark, now);
    var i := FindMember(mb, member);
    if rc >= 0 {
      OneRowMeans(mb, mb', member, x);
      MarkPut(mb[i].marks, mb'[i].marks, id, id');
    }
  }

  lemma MarkPut(ms: seq<FMark>, ms': seq<FMark>, id: SpaceId, id': SpaceId)
    requires var k := FindMark(ms, id);
             if k >= 0 then |ms'| == |ms| && ms'[k].id == id && ms' == ms[k := ms'[k]]
             else |ms'| == |ms| + 1 && ms'[..|ms|] == ms && ms'[|ms|].id == id
    ensures id' == id ==> FindMark(ms', id') == if FindMark(ms, id') >= 0 then FindMark(ms, id') else |ms|
    ensures id' != id ==>
              var k := FindMark(ms, id');
              FindMark(ms', id') == k && (k >= 0 ==> ms'[k] == ms[k])
  {
    var k, p := FindMark(ms, id'), FindMark(ms, id);
    var k' := FindMark(ms', id');
    assert forall j :: 0 <= j < |ms| && j != p ==> ms'[j] == ms[j];
  }

  lemma ClearMeans(mb: Table, member: nat, x: nat, id: SpaceId)
    requires Distinct(mb)
    ensures var mb' := Clear(mb, member);
            && Distinct(mb')
            && IncarnOf(mb', x) == IncarnOf(mb, x)
            && EntryOf(mb', x, id) == (if x == member then None else EntryOf(mb, x, id))
  {
    if FindMember(mb, member) >= 0 { OneRowMeans(mb, Clear(mb, member), member, x); }
  }

  /** The member left: it is not in the table, and every other row is still found. */
  lemma ForgetMeans(mb: Table, member: nat, x: nat, id: SpaceId)
    requires Distinct(mb)
    ensures var mb' := Forget(mb, member);
            && Distinct(mb')
            && IncarnOf(mb', x) == (if x == member then None else IncarnOf(mb, x))
            && EntryOf(mb', x, id) == (if x == member then None else EntryOf(mb, x, id))
  {
    var i := FindMember(mb, member);
    var mb' := Forget(mb, member);
    if i >= 0 {
      var last := |mb| - 1;
      assert forall j :: 0 <= j < last ==> mb'[j] == if j == i then mb[last] else mb[j];
      assert Distinct(mb');
      var k := FindMember(mb, x);
      if x != member && k >= 0 { FoundAt(mb', x, if k == last then i else k); }
    }
  }

  lemma AnnounceForAll(mb: Table, member: nat, incarn: nat)
    requires Distinct(mb)
    ensures var (mb', rc) := Announce(mb, member, incarn);
            && Distinct(mb') && (rc < 0 <==> IncarnOf(mb, member).None? && |mb| == MEMBERS)
            && (forall x :: IncarnOf(mb', x) == if x == member && rc >= 0 then Some(incarn) else IncarnOf(mb, x))
            && forall x, id :: EntryOf(mb', x, id) ==
                 if x == member && IncarnOf(mb, member) != Some(incarn) then None else EntryOf(mb, x, id)
  {
    hide Announce;
    hide IncarnOf;
    hide EntryOf;
    AnnounceMeans(mb, member, incarn, member, SpaceId(0, 0));
    var mb' := Announce(mb, member, incarn).0;
    forall x, id
      ensures EntryOf(mb', x, id) ==
              if x == member && IncarnOf(mb, member) != Some(incarn) then None else EntryOf(mb, x, id)
    { AnnounceMeans(mb, member, incarn, x, id); }
    forall x { AnnounceMeans(mb, member, incarn, x, SpaceId(0, 0)); }
  }

  lemma ReportForAll(mb: Table, member: nat, id: SpaceId, mark: nat, now: int)
    requires Distinct(mb)
    ensures var (mb', rc) := Report(mb, member, id, mark, now);
            && Distinct(mb') && (rc < 0 ==> mb' == mb)
            && (rc == 1 <==> Says(mb, member, id).Some? && mark < Says(mb, member, id).value)
            && (rc < 0 <==> IncarnOf(mb, member).None? || (EntryOf(mb, member, id).None? && Spaces(mb, member) == SPACES))
            && (rc >= 0 ==> Says(mb', member, id) == Some(mark))
            && (rc >= 0 ==>
                  ChangedAt(mb', member, id) == if Says(mb, member, id) == Some(mark) then ChangedAt(mb, member, id) else Some(now))
            && (forall x :: IncarnOf(mb', x) == IncarnOf(mb, x))
            && forall x, id' :: !(x == member && id' == id) ==> EntryOf(mb', x, id') == EntryOf(mb, x, id')
  {
    hide Report;
    hide IncarnOf;
    hide EntryOf;
    hide Says;
    ReportMeans(mb, member, id, mark, now, member, id);
    forall x, id' { ReportMeans(mb, member, id, mark, now, x, id'); }
    forall x { ReportMeans(mb, member, id, mark, now, x, id); }
  }

  lemma ClearForAll(mb: Table, member: nat)
    requires Distinct(mb)
    ensures var mb' := Clear(mb, member);
            && Distinct(mb') && (forall x :: IncarnOf(mb', x) == IncarnOf(mb, x))
            && forall x, id :: EntryOf(mb', x, id) == if x == member then None else EntryOf(mb, x, id)
  {
    hide Clear;
    hide IncarnOf;
    hide EntryOf;
    forall x, id { ClearMeans(mb, member, x, id); }
    ClearMeans(mb, member, member, SpaceId(0, 0));
    forall x { ClearMeans(mb, member, x, SpaceId(0, 0)); }
  }

  lemma ForgetForAll(mb: Table, member: nat)
    requires Distinct(mb)
    ensures var mb' := Forget(mb, member);
            && Distinct(mb') && (forall x :: IncarnOf(mb', x) == if x == member then None else IncarnOf(mb, x))
            && forall x, id :: EntryOf(mb', x, id) == if x == member then None else EntryOf(mb, x, id)
  {
    hide Forget;
    hide IncarnOf;
    hide EntryOf;
    forall x, id { ForgetMeans(mb, member, x, id); }
    ForgetMeans(mb, member, member, SpaceId(0, 0));
    forall x { ForgetMeans(mb, member, x, SpaceId(0, 0)); }
  }

  // ---- the lowest and the highest mark ----

  /** lo is the least mark over the list, 0 if the list is empty or lacks an entry. */
  ghost predicate IsLowest(mb: Table, id: SpaceId, members: seq<nat>, lo: nat) {
    if members == [] || (exists m :: m in members && Says(mb, m, id).None?) then lo == 0
    else
      && (forall m :: m in members ==> lo <= Says(mb, m, id).value)
      && (lo == MAX_MARK || exists m :: m in members && lo == Says(mb, m, id).value)
  }

  function Names(mb: Table): seq<nat> { seq(|mb|, i requires 0 <= i < |mb| => mb[i].member) }

  ghost predicate IsHighest(mb: Table, id: SpaceId, members: seq<nat>, hi: nat) {
    && (forall m :: m in members && Says(mb, m, id).Some? ==> Says(mb, m, id).value <= hi)
    && (hi == 0 || exists m :: m in members && Says(mb, m, id) == Some(hi))
  }

  // ---- the members stuck on a space ----

  datatype Stuck = Stuck(member: nat, mark: nat, moved: int)

  /** The latest any of the members moved - the others' progress. */
  function Latest(mb: Table, id: SpaceId, members: seq<nat>, also: int): (t: int)
    ensures also <= t
    ensures forall m :: m in members && EntryOf(mb, m, id).Some? ==> EntryOf(mb, m, id).value.moved <= t
    ensures t == also || exists m :: m in members && EntryOf(mb, m, id).Some? && t == EntryOf(mb, m, id).value.moved
  {
    if members == [] then also
    else
      var n := |members| - 1;
      var t := Latest(mb, id, members[..n], also);
      var e := EntryOf(mb, members[n], id);
      assert members == members[..n] + [members[n]];
      if e.Some? && e.value.moved > t then e.value.moved else t
  }

  /** Below the head and unmoved for long, while somebody moved later. */
  predicate IsStuck(e: Option<FMark>, head: nat, before: int, latest: int) {
    e.Some? && e.value.mark < head && e.value.moved != 0 && e.value.moved <= before && latest > e.value.moved
  }

  function StuckOf(mb: Table, id: SpaceId, members: seq<nat>, head: nat, before: int, latest: int): seq<Stuck> {
    if members == [] then []
    else
      var n := |members| - 1;
      var e := EntryOf(mb, members[n], id);
      StuckOf(mb, id, members[..n], head, before, latest)
      + if IsStuck(e, head, before, latest) then [Stuck(members[n], e.value.mark, e.value.moved)] else []
  }

  /** Somebody moved after t: one of the members, or `also` says so. */
  ghost predicate MovedAfter(mb: Table, id: SpaceId, members: seq<nat>, also: int, t: int) {
    also > t || exists m :: m in members && ChangedAt(mb, m, id).Some? && ChangedAt(mb, m, id).value > t
  }

  /** The member's mark is below the head and last changed at a time that is known, at least `still` ago,
      and others have moved since. */
  ghost predicate Behind(mb: Table, id: SpaceId, members: seq<nat>, head: nat, also: int, now: int, still: int, m: nat) {
    && Says(mb, m, id).Some? && Says(mb, m, id).value < head
    && var t := ChangedAt(mb, m, id).value;
       t != 0 && now - t >= still && MovedAfter(mb, id, members, also, t)
  }

  lemma StuckIsBehind(mb: Table, id: SpaceId, members: seq<nat>, head: nat, also: int, now: int, still: int, m: nat)
    ensures IsStuck(EntryOf(mb, m, id), head, now - still, Latest(mb, id, members, also)) <==>
      Behind(mb, id, members, head, also, now, still, m)
  {
    hide Latest;
    hide EntryOf;
    var t := Latest(mb, id, members, also);
    if EntryOf(mb, m, id).Some? {
      var moved := EntryOf(mb, m, id).value.moved;
      if t > moved && t != also {
        var x :| x in members && EntryOf(mb, x, id).Some? && t == EntryOf(mb, x, id).value.moved;
        assert ChangedAt(mb, x, id) == Some(t);
      }
      assert t > moved <==> MovedAfter(mb, id, members, also, moved);
    }
  }

  /** What a row says of its member. */
  ghost predicate RowIs(mb: Table, id: SpaceId, members: seq<nat>, head: nat, also: int, now: int, still: int, r: Stuck) {
    && Behind(mb, id, members, head, also, now, still, r.member)
    && Says(mb, r.member, id) == Some(r.mark) && ChangedAt(mb, r.member, id) == Some(r.moved)
  }

  /** The members stuck are exactly those listed that are behind, each as often as it is listed, with the
      mark and the time it stands at. */
  lemma StuckMeans(mb: Table, id: SpaceId, members: seq<nat>, head: nat, also: int, now: int, still: int, m: nat)
    ensures var rows := StuckOf(mb, id, members, head, now - still, Latest(mb, id, members, also));
      && (forall i :: 0 <= i < |rows| ==> RowIs(mb, id, members, head, also, now, still, rows[i]))
      && Times(rows, m) == if Behind(mb, id, members, head, also, now, still, m) then multiset(members)[m] else 0
  {
    StuckUpTo(mb, id, members, head, also, now, still, |members|, m);
    assert members[..|members|] == members;
  }

  lemma {:induction false} StuckUpTo(mb: Table, id: SpaceId, members: seq<nat>, head: nat, also: int, now: int, still: int,
                                     n: nat, m: nat)
    requires n <= |members|
    ensures var rows := StuckOf(mb, id, members[..n], head, now - still, Latest(mb, id, members, also));
      && (forall i :: 0 <= i < |rows| ==> RowIs(mb, id, members, head, also, now, still, rows[i]))
      && Times(rows, m) == if Behind(mb, id, members, head, also, now, still, m) then multiset(members[..n])[m] else 0
    decreases n
  {
    hide Latest;
    hide RowIs;
    hide Behind;
    hide IsStuck;
    hide EntryOf;
    if n > 0 {
      StuckUpTo(mb, id, members, head, also, now, still, n - 1, m);
      var x := members[n - 1];
      var e, latest := EntryOf(mb, x, id), Latest(mb, id, members, also);
      var front := StuckOf(mb, id, members[..n - 1], head, now - still, latest);
      OneMoreListed(members, n, m);
      assert members[..n][..n - 1] == members[..n - 1];
      RowOf(mb, id, members, head, also, now, still, x);
      if IsStuck(e, head, now - still, latest) {
        var r := Stuck(x, e.value.mark, e.value.moved);
        TimesMore(front, r, m);
      } else {
        assert StuckOf(mb, id, members[..n], head, now - still, latest) == front;
      }
    }
  }

  lemma RowOf(mb: Table, id: SpaceId, members: seq<nat>, head: nat, also: int, now: int, still: int, x: nat)
    ensures var e := EntryOf(mb, x, id);
      if IsStuck(e, head, now - still, Latest(mb, id, members, also))
      then e.Some? && Behind(mb, id, members, head, also, now, still, x)
           && RowIs(mb, id, members, head, also, now, still, Stuck(x, e.value.mark, e.value.moved))
      else !Behind(mb, id, members, head, also, now, still, x)
  {
    hide Latest;
    hide EntryOf;
    StuckIsBehind(mb, id, members, head, also, now, still, x);
    hide Behind;
  }

  lemma OneMoreListed(members: seq<nat>, n: nat, m: nat)
    requires 0 < n <= |members|
    ensures multiset(members[..n])[m] == multiset(members[..n - 1])[m] + if members[n - 1] == m then 1 else 0
  {
    assert members[..n] == members[..n - 1] + [members[n - 1]];
  }

  lemma TimesMore(rows: seq<Stuck>, r: Stuck, m: nat)
    ensures Times(rows + [r], m) == Times(rows, m) + if r.member == m then 1 else 0
  {
    assert (rows + [r])[..|rows|] == rows;
  }

  function Times(rows: seq<Stuck>, m: nat): nat {
    if rows == [] then 0 else Times(rows[..|rows| - 1], m) + if rows[|rows| - 1].member == m then 1 else 0
  }

  function InsertStill(rows: seq<Stuck>, r: Stuck): (out: seq<Stuck>)
    ensures |out| == |rows| + 1
  {
    var n := |rows|;
    if n > 0 && rows[n - 1].moved > r.moved then
      InsertStill(rows[..n - 1], r) + [rows[n - 1]]
    else rows + [r]
  }

  /** The longest-still first; equals keep the order they came in. */
  function StillFirst(rows: seq<Stuck>): (out: seq<Stuck>)
    ensures |out| == |rows|
  {
    if rows == [] then []
    else InsertStill(StillFirst(rows[..|rows| - 1]), rows[|rows| - 1])
  }

  ghost predicate ByMoved(rows: seq<Stuck>) {
    forall i, j :: 0 <= i < j < |rows| ==> rows[i].moved <= rows[j].moved
  }

  function MovedAt(rows: seq<Stuck>, t: int): seq<Stuck> {
    if rows == [] then []
    else MovedAt(rows[..|rows| - 1], t) + if rows[|rows| - 1].moved == t then [rows[|rows| - 1]] else []
  }

  lemma {:induction false} InsertStillKeeps(rows: seq<Stuck>, r: Stuck)
    ensures multiset(InsertStill(rows, r)) == multiset(rows) + multiset{r}
  {
    var n := |rows|;
    if n > 0 && rows[n - 1].moved > r.moved {
      InsertStillKeeps(rows[..n - 1], r);
      assert rows == rows[..n - 1] + [rows[n - 1]];
    }
  }

  lemma {:induction false} InsertStillSorts(rows: seq<Stuck>, r: Stuck)
    requires ByMoved(rows)
    ensures ByMoved(InsertStill(rows, r))
  {
    var n := |rows|;
    if n > 0 && rows[n - 1].moved > r.moved {
      var front, last := rows[..n - 1], rows[n - 1];
      InsertStillSorts(front, r);
      var out := InsertStill(front, r);
      InsertStillKeeps(front, r);
      forall i | 0 <= i < |out| ensures out[i].moved <= last.moved {
        assert out[i] in multiset(out);
        assert out[i] in multiset(front) + multiset{r};
      }
    }
  }

  lemma {:induction false} InsertStillIsStable(rows: seq<Stuck>, r: Stuck, t: int)
    ensures MovedAt(InsertStill(rows, r), t) == MovedAt(rows, t) + if r.moved == t then [r] else []
  {
    var n := |rows|;
    if n > 0 && rows[n - 1].moved > r.moved {
      InsertStillIsStable(rows[..n - 1], r, t);
      assert InsertStill(rows, r)[..n] == InsertStill(rows[..n - 1], r);
    } else {
      assert (rows + [r])[..n] == rows;
    }
  }

  lemma {:induction false} StillFirstByMoved(rows: seq<Stuck>)
    ensures ByMoved(StillFirst(rows))
  {
    if rows != [] {
      StillFirstByMoved(rows[..|rows| - 1]);
      InsertStillSorts(StillFirst(rows[..|rows| - 1]), rows[|rows| - 1]);
    }
  }

  /** The list is sorted by how long each has been still, holds exactly the stuck members, and
      keeps equals in the order of the members' list. */
  lemma {:induction false} StillFirstSorts(rows: seq<Stuck>, t: int)
    ensures ByMoved(StillFirst(rows))
    ensures multiset(StillFirst(rows)) == multiset(rows)
    ensures MovedAt(StillFirst(rows), t) == MovedAt(rows, t)
  {
    hide InsertStill;
    hide ByMoved;
    StillFirstByMoved(rows);
    if rows != [] {
      var front, last := rows[..|rows| - 1], rows[|rows| - 1];
      StillFirstSorts(front, t);
      InsertStillKeeps(StillFirst(front), last);
      assert rows == front + [last];
      InsertStillIsStable(StillFirst(front), last, t);
    }
  }

  /** Where everything from m on moved later, the new row lands before it. */
  lemma {:induction false} InsertBefore(rows: seq<Stuck>, r: Stuck, m: nat)
    requires m <= |rows| && forall j :: m <= j < |rows| ==> rows[j].moved > r.moved
    ensures InsertStill(rows, r) == InsertStill(rows[..m], r) + rows[m..]
  {
    var n := |rows|;
    if m < n {
      InsertBefore(rows[..n - 1], r, m);
      assert rows[..n - 1][..m] == rows[..m];
      assert rows[m..] == rows[..n - 1][m..] + [rows[n - 1]];
    } else {
      assert rows[..m] == rows;
    }
  }

  /** Where row m - 1 moved no later, the first m rows stay as they are. */
  lemma {:induction false} InsertAfter(rows: seq<Stuck>, r: Stuck, m: nat)
    requires 0 < m <= |rows| && rows[m - 1].moved <= r.moved
    ensures InsertStill(rows, r)[..m] == rows[..m]
  {
    var n := |rows|;
    if rows[n - 1].moved > r.moved {
      InsertAfter(rows[..n - 1], r, m);
      assert rows[..n - 1][..m] == rows[..m];
    }
  }

  // ---- the table in memory ----

  class Clackf {
    const mb: array<FMember>
    var n: nat

    ghost predicate Valid()
      reads this, mb
    {
      mb.Length == MEMBERS && n <= MEMBERS && Distinct(mb[..n])
    }

    /** The rows in use. */
    ghost function View(): Table
      reads this, mb
      requires n <= mb.Length
    {
      mb[..n]
    }

    constructor ()
      ensures Valid() && View() == []
    {
      mb := new FMember[MEMBERS](i => FMember(0, 0, []));
      n := 0;
    }

    method Find(member: nat) returns (i: int)
      requires Valid()
      ensures i == FindMember(View(), member)
    {
      i := 0;
      while i < n && mb[i].member != member
        invariant 0 <= i <= n && forall j :: 0 <= j < i ==> mb[j].member != member
      {
        i := i + 1;
      }
      assert forall j :: 0 <= j < n ==> View()[j] == mb[j];
      if i == n { i := -1; }
    }

    method FindEntry(marks: seq<FMark>, id: SpaceId) returns (k: int)
      ensures k == FindMark(marks, id)
    {
      k := 0;
      while k < |marks| && marks[k].id != id
        invariant 0 <= k <= |marks| && forall j :: 0 <= j < k ==> marks[j].id != id
      {
        k := k + 1;
      }
      if k == |marks| { k := -1; }
    }

    method Entry(member: nat, id: SpaceId) returns (e: Option<FMark>)
      requires Valid()
      ensures e == EntryOf(View(), member, id)
    {
      var i := Find(member);
      if i < 0 {
        return None;
      }
      var k := FindEntry(mb[i].marks, id);
      e := if k < 0 then None else Some(mb[i].marks[k]);
    }

    /** Row i in use changes. */
    method SetRow(i: nat, row: FMember)
      requires i < n <= mb.Length
      modifies mb
      ensures View() == old(View())[i := row]
    {
      mb[i] := row;
    }

    /** The member is in the table under `incarn`, its marks kept only if that was its incarnation;
        nobody else is affected. */
    method Member(member: nat, incarn: nat) returns (rc: int)
      requires Valid()
      modifies this, mb
      ensures Valid() && (View(), rc) == Announce(old(View()), member, incarn)
      ensures rc < 0 <==> old(IncarnOf(View(), member).None? && n == MEMBERS)
      ensures forall x :: IncarnOf(View(), x) == if x == member && rc >= 0 then Some(incarn) else old(IncarnOf(View(), x))
      ensures forall x, id :: EntryOf(View(), x, id) ==
                if x == member && old(IncarnOf(View(), member)) != Some(incarn) then None else old(EntryOf(View(), x, id))
    {
      AnnounceForAll(View(), member, incarn);
      hide IncarnOf;
      hide EntryOf;
      hide Distinct;
      ghost var was := View();
      var i := Find(member);
      if i < 0 {
        if n == MEMBERS {
          return -1;
        }
        mb[n] := FMember(member, incarn, []);
        n := n + 1;
        assert View() == was + [FMember(member, incarn, [])];
        return 0;
      }
      if mb[i].incarn == incarn {
        return 0;
      }
      SetRow(i, FMember(member, incarn, []));
      rc := 1;
    }

    /** The member says `mark` of the space, when it is in the table and has room; rc is 1 exactly when
        it said more before; nothing else that anybody says changes. */
    method ReportMark(member: nat, id: SpaceId, mark: nat, now: int) returns (rc: int)
      requires Valid()
      modifies this, mb
      ensures Valid() && (View(), rc) == Report(old(View()), member, id, mark, now)
      ensures rc == 1 <==> old(Says(View(), member, id)).Some? && mark < old(Says(View(), member, id)).value
      ensures rc >= 0 ==> Says(View(), member, id) == Some(mark)
      ensures rc >= 0 ==>
                var was := old(Says(View(), member, id));
                ChangedAt(View(), member, id) == if was == Some(mark) then old(ChangedAt(View(), member, id)) else Some(now)
      ensures rc < 0 ==> View() == old(View())
      ensures forall x :: IncarnOf(View(), x) == old(IncarnOf(View(), x))
      ensures forall x, id' :: !(x == member && id' == id) ==> EntryOf(View(), x, id') == old(EntryOf(View(), x, id'))
    {
      ReportForAll(View(), member, id, mark, now);
      hide IncarnOf;
      hide EntryOf;
      hide Says;
      hide Distinct;
      var i := Find(member);
      if i < 0 {
        return -1;
      }
      var row := mb[i];
      var marks := row.marks;
      var k := FindEntry(marks, id);
      if k >= 0 {
        var moved := if mark != marks[k].mark then now else marks[k].moved;
        rc := if mark < marks[k].mark then 1 else 0;
        SetRow(i, row.(marks := marks[k := FMark(id, mark, moved)]));
      } else if |marks| == SPACES {
        rc := -1;
      } else {
        rc := 0;
        SetRow(i, row.(marks := marks + [FMark(id, mark, now)]));
      }
    }

    /** The member says nothing any more; everything else stays. */
    method ClearMember(member: nat)
      requires Valid()
      modifies this, mb
      ensures Valid() && View() == Clear(old(View()), member)
      ensures forall x :: IncarnOf(View(), x) == old(IncarnOf(View(), x))
      ensures forall x, id :: EntryOf(View(), x, id) == if x == member then None else old(EntryOf(View(), x, id))
    {
      ClearForAll(View(), member);
      hide IncarnOf;
      hide EntryOf;
      hide Distinct;
      var i := Find(member);
      if i >= 0 { SetRow(i, mb[i].(marks := [])); }
    }

    /** The member is not in the table any more; the row moved into its place is still found. */
    method ForgetMember(member: nat)
      requires Valid()
      modifies this, mb
      ensures Valid() && View() == Forget(old(View()), member)
      ensures forall x :: IncarnOf(View(), x) == if x == member then None else old(IncarnOf(View(), x))
      ensures forall x, id :: EntryOf(View(), x, id) == if x == member then None else old(EntryOf(View(), x, id))
    {
      ForgetForAll(View(), member);
      hide IncarnOf;
      hide EntryOf;
      hide Distinct;
      ghost var was := View();
      var i := Find(member);
      if i < 0 { return; }
      n := n - 1;
      mb[i] := mb[n];
      assert View() == was[i := was[n]][..n];
    }

    method Min(id: SpaceId, members: seq<nat>) returns (lo: nat)
      requires Valid()
      ensures IsLowest(View(), id, members, lo)
    {
      if members == [] {
        return 0;
      }
      lo := MAX_MARK;
      for i := 0 to |members|
        invariant forall j :: 0 <= j < i ==> Says(View(), members[j], id).Some? && lo <= Says(View(), members[j], id).value
        invariant lo == MAX_MARK || exists j :: 0 <= j < i && Says(View(), members[j], id) == Some(lo)
      {
        var e := Entry(members[i], id);
        if e.None? {
          assert members[i] in members && Says(View(), members[i], id).None?;
          return 0;
        }
        if e.value.mark < lo { lo := e.value.mark; }
      }
    }

    /** Over the members listed, or over every member of the table. */
    method Max(id: SpaceId, members: Option<seq<nat>>) returns (hi: nat)
      requires Valid()
      ensures IsHighest(View(), id, if members.Some? then members.value else Names(View()), hi)
    {
      hide EntryOf;
      hi := 0;
      ghost var list := if members.Some? then members.value else Names(View());
      var n := if members.Some? then |members.value| else n;
      for i := 0 to n
        invariant forall j :: 0 <= j < i && Says(View(), list[j], id).Some? ==> Says(View(), list[j], id).value <= hi
        invariant hi == 0 || exists j :: 0 <= j < i && Says(View(), list[j], id) == Some(hi)
      {
        var m := if members.Some? then members.value[i] else mb[i].member;
        assert m == list[i];
        var e := Entry(m, id);
        if e.Some? && e.value.mark > hi { hi := e.value.mark; }
      }
    }

    method LatestMove(id: SpaceId, members: seq<nat>, also: int) returns (latest: int)
      requires Valid()
      ensures latest == Latest(View(), id, members, also)
    {
      latest := also;
      for i := 0 to |members|
        invariant latest == Latest(View(), id, members[..i], also)
      {
        assert members[..i + 1][..i] == members[..i];
        var e := Entry(members[i], id);
        if e.Some? && e.value.moved > latest { latest := e.value.moved; }
      }
      assert members[..|members|] == members;
    }

    /** Counts the listed members that are stuck and keeps the first `max` of them by last move. */
    method StuckOn(id: SpaceId, members: seq<nat>, head: nat, also: int, now: int, still: int,
                   out: array<Stuck>, max: int) returns (k: nat)
      requires Valid() && max <= out.Length
      modifies out
      ensures var all := StuckOf(View(), id, members, head, now - still, Latest(View(), id, members, also));
              k == |all| && Filled(out[..], old(out[..]), all, max)
    {
      var latest := LatestMove(id, members, also);
      k := 0;
      ghost var all: seq<Stuck> := [];
      for i := 0 to |members|
        invariant all == StuckOf(View(), id, members[..i], head, now - still, latest) && k == |all|
        invariant Filled(out[..], old(out[..]), all, max)
      {
        assert members[..i + 1][..i] == members[..i];
        var e := Entry(members[i], id);
        if IsStuck(e, head, now - still, latest) {
          var r := Stuck(members[i], e.value.mark, e.value.moved);
          Place(out, max, k, r, all, old(out[..]));
          all := all + [r];
          k := k + 1;
        }
      }
      assert members[..|members|] == members;
    }
  }

  function Kept(n: nat, max: int): nat { if max < 0 then 0 else if n < max then n else max }

  /** The front of `out` is the front of the sorted list, the rest of it untouched. */
  ghost predicate Filled(out: seq<Stuck>, was: seq<Stuck>, all: seq<Stuck>, max: int) {
    var n := Kept(|all|, max);
    && |out| == |was| && n <= |out|
    && out[..n] == StillFirst(all)[..n] && out[n..] == was[n..]
  }

  lemma OneMore(all: seq<Stuck>, r: Stuck)
    ensures StillFirst(all + [r]) == InsertStill(StillFirst(all), r)
  {
    assert (all + [r])[..|all|] == all;
  }

  lemma PlacedLast(out: seq<Stuck>, out': seq<Stuck>, was: seq<Stuck>, all: seq<Stuck>, r: Stuck, max: nat)
    requires Filled(out, was, all, max) && |all| < max <= |out| == |out'|
    requires out'[..|all| + 1] == InsertStill(out[..|all|], r) && out'[|all| + 1..] == out[|all| + 1..]
    ensures Filled(out', was, all + [r], max)
  {
    OneMore(all, r);
    assert out[..|all|] == StillFirst(all);
    assert out'[|all| + 1..] == out[|all|..][1..] == was[|all| + 1..];
  }

  lemma FrontOfInsert(sorted: seq<Stuck>, r: Stuck, m: nat)
    requires ByMoved(sorted) && 0 < m <= |sorted| && sorted[m - 1].moved > r.moved
    ensures InsertStill(sorted, r)[..m] == InsertStill(sorted[..m - 1], r)
  {
    InsertBefore(sorted, r, m - 1);
  }

  lemma FrontAgrees(a: seq<Stuck>, b: seq<Stuck>, m: nat)
    requires 0 < m <= |a| && m <= |b| && a[..m] == b[..m]
    ensures a[..m - 1] == b[..m - 1] && a[m - 1] == b[m - 1]
  {
    assert a[..m][m - 1] == b[..m][m - 1];
    forall i | 0 <= i < m - 1 ensures a[i] == b[i] {
      assert a[..m][i] == b[..m][i];
    }
  }

  lemma PlacedNowhere(out: seq<Stuck>, was: seq<Stuck>, all: seq<Stuck>, r: Stuck, max: int)
    requires Filled(out, was, all, max) && max <= |all| && max <= |out|
    requires max > 0 ==> out[max - 1].moved <= r.moved
    ensures Filled(out, was, all + [r], max)
  {
    OneMore(all, r);
    if max > 0 {
      assert StillFirst(all)[max - 1] == out[..max][max - 1];
      InsertAfter(StillFirst(all), r, max);
    }
  }

  lemma ShiftedIn(rows: seq<Stuck>, r: Stuck, j: nat)
    requires j <= |rows| && (j > 0 ==> rows[j - 1].moved <= r.moved)
    requires forall i :: j <= i < |rows| ==> rows[i].moved > r.moved
    ensures InsertStill(rows, r) == rows[..j] + [r] + rows[j..]
  {
    InsertBefore(rows, r, j);
  }

  /** The row goes into the j0 sorted rows at the front, those moved later shifting by one. */
  method ShiftIn(out: array<Stuck>, j0: nat, r: Stuck)
    requires j0 < out.Length
    modifies out
    ensures out[..j0 + 1] == InsertStill(old(out[..j0]), r)
    ensures out[j0 + 1..] == old(out[j0 + 1..])
  {
    hide InsertStill;
    ghost var rows := out[..j0];
    var j := j0;
    while j > 0 && out[j - 1].moved > r.moved
      invariant 0 <= j <= j0
      invariant forall i :: 0 <= i < j ==> out[i] == rows[i]
      invariant forall i :: j <= i < j0 ==> out[i + 1] == rows[i] && rows[i].moved > r.moved
      invariant forall i :: j0 < i < out.Length ==> out[i] == old(out[i])
    {
      out[j] := out[j - 1];
      j := j - 1;
    }
    out[j] := r;
    ShiftedIn(rows, r, j);
    Arranged(out[..], rows, r, j);
    assert out[..][..j0 + 1] == out[..j0 + 1];
  }

  lemma Arranged(now: seq<Stuck>, rows: seq<Stuck>, r: Stuck, j: nat)
    requires j <= |rows| < |now| && now[j] == r
    requires forall i :: 0 <= i < j ==> now[i] == rows[i]
    requires forall i :: j <= i < |rows| ==> now[i + 1] == rows[i]
    ensures now[..|rows| + 1] == rows[..j] + [r] + rows[j..]
  {
    var a, b := now[..|rows| + 1], rows[..j] + [r] + rows[j..];
    assert |a| == |b|;
    forall k | 0 <= k < |a| ensures a[k] == b[k] {
      if k > j { assert now[(k - 1) + 1] == rows[k - 1]; }
    }
  }

  /** The array stays the front of the sorted rows when r joins them. */
  method Place(out: array<Stuck>, max: int, k: nat, r: Stuck, ghost all: seq<Stuck>, ghost was: seq<Stuck>)
    requires max <= out.Length && k == |all| && Filled(out[..], was, all, max)
    modifies out
    ensures Filled(out[..], was, all + [r], max)
  {
    ghost var before := out[..];
    if k < max {
      ShiftIn(out, k, r);
      PlacedLast(before, out[..], was, all, r, max);
    } else if max > 0 && out[max - 1].moved > r.moved {
      StillFirstByMoved(all);
      FrontAgrees(before, StillFirst(all), max);
      FrontOfInsert(StillFirst(all), r, max);
      ShiftIn(out, max - 1, r);
      OneMore(all, r);
    } else {
      PlacedNowhere(before, was, all, r, max);
    }
  }
}
