/** src/ackstate.c: the watermarks' file beside each snapshot, what a restart makes of it after a
    crash at any point, and the rotating slice of the marks a keepalive carries. */
module AckState {
  import opened Bytes
  import opened Watermark
  import opened Clack

  // ---- the file ----

  const MAGIC: nat := 0x4B414350
  const VERSION: nat := 1
  const HEADER: nat := 20
  const ENTRY: nat := 20

  /** A captured space: its applied mark. */
  datatype Cap = Cap(oid: nat, incarn: nat, mark: nat)

  predicate Storable(c: Cap) {
    c.oid < 0x1_0000_0000_0000_0000 && c.incarn < 0x1_0000_0000 && c.mark < 0x1_0000_0000_0000_0000
  }

  function EntryOf(c: Cap): (b: seq<byte>)
    ensures |b| == ENTRY
  {
    Le(c.oid, 8) + Le(c.incarn, 4) + Le(c.mark, 8)
  }

  function Entries(caps: seq<Cap>): (b: seq<byte>)
    ensures |b| == ENTRY * |caps|
  {
    if caps == [] then [] else Entries(caps[..|caps| - 1]) + EntryOf(caps[|caps| - 1])
  }

  function Body(marker: nat, caps: seq<Cap>): (b: seq<byte>)
    ensures |b| == HEADER + ENTRY * |caps|
  {
    Le(MAGIC, 4) + Le(VERSION, 4) + Le(marker, 8) + Le(|caps|, 4) + Entries(caps)
  }

  /** The whole file; crc stands for CRC-32C. */
  function File(marker: nat, caps: seq<Cap>, crc: seq<byte> -> nat): seq<byte> {
    Body(marker, caps) + Le(crc(Body(marker, caps)), 4)
  }

  /** Not ours or torn; another snapshot's; or the marks to restore. */
  datatype Loaded = Torn | Other | Found(caps: seq<Cap>)

  function ReadEntry(b: seq<byte>): Cap
    requires |b| == ENTRY
  {
    Cap(UnLe(b[..8]), UnLe(b[8..12]), UnLe(b[12..]))
  }

  function ReadEntries(b: seq<byte>, n: nat): (caps: seq<Cap>)
    requires |b| == ENTRY * n
    ensures |caps| == n
  {
    if n == 0 then []
    else ReadEntries(b[..ENTRY * (n - 1)], n - 1) + [ReadEntry(b[ENTRY * (n - 1)..])]
  }

  predicate WellFormed(b: seq<byte>, crc: seq<byte> -> nat) {
    && |b| >= HEADER + 4
    && UnLe(b[..4]) == MAGIC && UnLe(b[4..8]) == VERSION
    && var n := UnLe(b[16..20]);
       && n <= SPACES && |b| == HEADER + ENTRY * n + 4
       && crc(b[..|b| - 4]) == UnLe(b[|b| - 4..])
  }

  function Load(b: seq<byte>, marker: nat, crc: seq<byte> -> nat): Loaded {
    if !WellFormed(b, crc) then Torn
    else if UnLe(b[8..16]) != marker then Other
    else Found(ReadEntries(b[HEADER..|b| - 4], UnLe(b[16..20])))
  }

  lemma EntryRound(c: Cap)
    requires Storable(c)
    ensures ReadEntry(EntryOf(c)) == c
  {
    hide Le;
    hide UnLe;
    Sizes();
    LeRound(c.oid, 8);
    LeRound(c.incarn, 4);
    LeRound(c.mark, 8);
    var b := EntryOf(c);
    assert b[..8] == Le(c.oid, 8) && b[8..12] == Le(c.incarn, 4) && b[12..] == Le(c.mark, 8);
  }

  lemma EntryBack(b: seq<byte>)
    requires |b| == ENTRY
    ensures EntryOf(ReadEntry(b)) == b && Storable(ReadEntry(b))
  {
    hide Le;
    hide UnLe;
    Sizes();
    UnLeRound(b[..8]);
    UnLeRound(b[8..12]);
    UnLeRound(b[12..]);
    assert b == b[..8] + b[8..12] + b[12..];
  }

  lemma {:induction false} EntriesRound(caps: seq<Cap>)
    requires forall c :: c in caps ==> Storable(c)
    ensures ReadEntries(Entries(caps), |caps|) == caps
  {
    hide EntryOf;
    hide ReadEntry;
    if caps != [] {
      var front, last := caps[..|caps| - 1], caps[|caps| - 1];
      assert forall c :: c in front ==> c in caps;
      EntriesRound(front);
      EntryRound(last);
      var b := Entries(caps);
      assert b[..ENTRY * |front|] == Entries(front) && b[ENTRY * |front|..] == EntryOf(last);
      assert caps == front + [last];
    }
  }

  lemma {:induction false} EntriesBack(b: seq<byte>, n: nat)
    requires |b| == ENTRY * n
    ensures Entries(ReadEntries(b, n)) == b && forall c :: c in ReadEntries(b, n) ==> Storable(c)
  {
    hide EntryOf;
    hide ReadEntry;
    if n > 0 {
      var k := ENTRY * (n - 1);
      EntriesBack(b[..k], n - 1);
      EntryBack(b[k..]);
      var caps := ReadEntries(b, n);
      assert caps[..n - 1] == ReadEntries(b[..k], n - 1);
      assert b == b[..k] + b[k..];
    }
  }

  ghost predicate IsCrc(crc: seq<byte> -> nat) { forall b :: crc(b) < 0x1_0000_0000 }

  /** What was saved under a marker is what a load of that marker restores, and a load of any
      other marker restores nothing. */
  lemma SavedIsLoaded(marker: nat, caps: seq<Cap>, crc: seq<byte> -> nat, want: nat)
    requires IsCrc(crc) && |caps| <= SPACES && marker < 0x1_0000_0000_0000_0000
    requires forall c :: c in caps ==> Storable(c)
    ensures Load(File(marker, caps, crc), want, crc) == if want == marker then Found(caps) else Other
  {
    hide Le;
    hide UnLe;
    hide Entries;
    hide ReadEntries;
    hide EntryOf;
    var body, b := Body(marker, caps), File(marker, caps, crc);
    Sizes();
    LeRound(MAGIC, 4);
    LeRound(VERSION, 4);
    LeRound(marker, 8);
    LeRound(|caps|, 4);
    LeRound(crc(body), 4);
    assert b[..4] == Le(MAGIC, 4) && b[4..8] == Le(VERSION, 4);
    assert b[8..16] == Le(marker, 8) && b[16..20] == Le(|caps|, 4);
    assert b[..|b| - 4] == body && b[|b| - 4..] == Le(crc(body), 4);
    assert b[HEADER..|b| - 4] == Entries(caps);
    EntriesRound(caps);
  }

  /** Nothing else is ever restored from: a file that restores marks is, byte for byte, the one
      saved for that marker and those marks. */
  lemma LoadedWasSaved(b: seq<byte>, marker: nat, crc: seq<byte> -> nat)
    requires IsCrc(crc) && Load(b, marker, crc).Found?
    ensures b == File(marker, Load(b, marker, crc).caps, crc)
  {
    hide Le;
    hide UnLe;
    hide Entries;
    hide ReadEntries;
    hide EntryOf;
    var n := UnLe(b[16..20]);
    EntriesBack(b[HEADER..|b| - 4], n);
    UnLeRound(b[..4]);
    UnLeRound(b[4..8]);
    UnLeRound(b[8..16]);
    UnLeRound(b[16..20]);
    UnLeRound(b[|b| - 4..]);
    assert b[..|b| - 4] == b[..4] + b[4..8] + b[8..16] + b[16..20] + b[HEADER..|b| - 4];
    assert b == b[..|b| - 4] + b[|b| - 4..];
  }

  // ---- capture, save, load ----

  /** The applied marks as a snapshot's walk begins. */
  function CapsOf(m: Marks): seq<Cap> {
    seq(|m.rows|, i requires 0 <= i < |m.rows| => Cap(m.rows[i].id.oid, m.rows[i].id.incarn, m.rows[i].sp.mark))
  }

  function RestoreAll(m: Marks, caps: seq<Cap>): Marks {
    if caps == [] then m
    else
      var c := caps[|caps| - 1];
      NoteRestore(RestoreAll(m, caps[..|caps| - 1]), SpaceId(c.oid, c.incarn), c.mark).0
  }

  function Rebuilt(m: Marks): seq<Row> {
    seq(|m.rows|, i requires 0 <= i < |m.rows| => Row(m.rows[i].id, Restore(m.rows[i].sp.mark)))
  }

  /** A fresh node that restores what another captured has exactly its spaces, each with its
      applied mark, applied and confirmed, and nothing held ahead of it. */
  lemma {:induction false} RestoredIsCaptured(m: Marks, onApply: bool, synced: nat, n: nat)
    requires n <= |m.rows| <= SPACES
    requires forall i, j :: 0 <= i < j < |m.rows| ==> m.rows[i].id != m.rows[j].id
    ensures RestoreAll(Marks(onApply, synced, []), CapsOf(m)[..n])
         == Marks(onApply, synced, Rebuilt(m)[..n])
  {
    hide Find;
    var empty := Marks(onApply, synced, []);
    if n > 0 {
      RestoredIsCaptured(m, onApply, synced, n - 1);
      var caps, rows := CapsOf(m), Rebuilt(m);
      assert caps[..n][..n - 1] == caps[..n - 1];
      NotFound(rows[..n - 1], m.rows[n - 1].id);
      assert rows[..n] == (rows[..n - 1] + [Row(m.rows[n - 1].id, EMPTY)])[n - 1 := rows[n - 1]];
    }
  }

  /** v as n little-endian bytes at `off`: the bytes before it stay. */
  method PutLe(buf: array<byte>, off: nat, v: nat, n: nat)
    requires off + n <= buf.Length
    modifies buf
    ensures buf[..off + n] == old(buf[..off]) + Le(v, n)
  {
    var i, rest := 0, v;
    assert Le(v, n)[0..] == Le(v, n);
    while i < n
      invariant 0 <= i <= n && buf[..off] == old(buf[..off])
      invariant Le(v, n)[i..] == Le(rest, n - i)
      invariant forall j :: 0 <= j < i ==> buf[off + j] == Le(v, n)[j]
    {
      assert Le(v, n)[i] == Le(v, n)[i..][0];
      assert Le(v, n)[i + 1..] == Le(v, n)[i..][1..];
      buf[off + i] := rest % 256;
      i, rest := i + 1, rest / 256;
    }
  }

  method PutEntry(buf: array<byte>, off: nat, c: Cap)
    requires off + ENTRY <= buf.Length
    modifies buf
    ensures buf[..off + ENTRY] == old(buf[..off]) + EntryOf(c)
  {
    hide Le;
    PutLe(buf, off, c.oid, 8);
    PutLe(buf, off + 8, c.incarn, 4);
    PutLe(buf, off + 12, c.mark, 8);
  }

  /** The file's bytes, field by field into one buffer. */
  method Encode(marker: nat, caps: seq<Cap>, crc: seq<byte> -> nat) returns (buf: array<byte>)
    ensures fresh(buf) && buf[..] == File(marker, caps, crc)
  {
    hide Le;
    hide EntryOf;
    buf := new byte[HEADER + ENTRY * |caps| + 4](i => 0);
    assert buf[..0] == [];
    PutLe(buf, 0, MAGIC, 4);
    PutLe(buf, 4, VERSION, 4);
    PutLe(buf, 8, marker, 8);
    PutLe(buf, 16, |caps|, 4);
    ghost var head := Le(MAGIC, 4) + Le(VERSION, 4) + Le(marker, 8) + Le(|caps|, 4);
    assert [] + Le(MAGIC, 4) == Le(MAGIC, 4);
    assert buf[..HEADER] == head + Entries(caps[..0]);
    var off := HEADER;
    for i := 0 to |caps|
      invariant off == HEADER + ENTRY * i
      invariant buf[..off] == head + Entries(caps[..i])
    {
      PutEntry(buf, off, caps[i]);
      assert caps[..i + 1][..i] == caps[..i];
      off := off + ENTRY;
    }
    assert caps[..|caps|] == caps;
    PutLe(buf, off, crc(buf[..off]), 4);
    assert buf[..] == buf[..off + 4];
  }

  lemma RestoreFits(m: Marks, id: SpaceId, mark: nat)
    ensures var (m', a) := NoteRestore(m, id, mark);
            && |m'.rows| <= |m.rows| + 1
            && (|m.rows| < SPACES ==> a == Took(New))
            && (a == Took(New) || a == Full)
  {
  }

  /** The file's marks into the table, one by one; how many it took. */
  method RestoreEach(a: Clack, ents: seq<byte>, n: nat) returns (done: nat)
    requires a.Valid() && |ents| == ENTRY * n
    modifies a.Repr
    ensures a.Valid() && fresh(a.Repr - old(a.Repr))
    ensures a.View() == RestoreAll(old(a.View()), ReadEntries(ents, n))
    ensures done <= n && (|old(a.View()).rows| + n <= SPACES ==> done == n)
  {
    hide NoteRestore;
    hide ReadEntry;
    hide ReadEntries;
    ghost var caps, was := ReadEntries(ents, n), a.View();
    done := 0;
    for i := 0 to n
      invariant a.Valid() && fresh(a.Repr - old(a.Repr))
      invariant a.View() == RestoreAll(was, caps[..i])
      invariant done <= i && |a.View().rows| <= |was.rows| + i
      invariant |was.rows| + i <= SPACES ==> done == i
    {
      EntryAt(ents, n, i);
      var c := ReadEntry(ents[ENTRY * i..ENTRY * (i + 1)]);
      assert caps[..i + 1][..i] == caps[..i];
      RestoreFits(a.View(), SpaceId(c.oid, c.incarn), c.mark);
      var ans := a.RestoreTo(SpaceId(c.oid, c.incarn), c.mark);
      if ans == Took(New) { done := done + 1; }
    }
    assert caps[..n] == caps;
  }

  /** Recovery: the file's marks are restored when it is the loaded snapshot's. */
  method LoadInto(a: Clack, b: seq<byte>, marker: nat, crc: seq<byte> -> nat) returns (rc: int)
    requires a.Valid()
    modifies a.Repr
    ensures a.Valid() && fresh(a.Repr - old(a.Repr))
    ensures var r := Load(b, marker, crc);
            && a.View() == (if r.Found? then RestoreAll(old(a.View()), r.caps) else old(a.View()))
            && (rc < 0 <==> r.Torn?) && (r.Other? ==> rc == 0)
            && (r.Found? && |old(a.View()).rows| + |r.caps| <= SPACES ==> rc == |r.caps|)
  {
    hide UnLe;
    hide ReadEntries;
    hide RestoreAll;
    if !WellFormed(b, crc) {
      rc := -1;
    } else if UnLe(b[8..16]) != marker {
      rc := 0;
    } else {
      rc := RestoreEach(a, b[HEADER..|b| - 4], UnLe(b[16..20]));
    }
  }

  lemma {:induction false} EntryAt(b: seq<byte>, n: nat, i: nat)
    requires |b| == ENTRY * n && i < n
    ensures ReadEntries(b, n)[i] == ReadEntry(b[ENTRY * i..ENTRY * (i + 1)])
  {
    hide ReadEntry;
    if i < n - 1 {
      EntryAt(b[..ENTRY * (n - 1)], n - 1, i);
      assert b[..ENTRY * (n - 1)][ENTRY * i..ENTRY * (i + 1)] == b[ENTRY * i..ENTRY * (i + 1)];
    } else {
      assert b[ENTRY * i..] == b[ENTRY * i..ENTRY * (i + 1)];
    }
  }

  // ---- the keepalive's slice of the marks ----

  /** Where a beat starts: the cursor, or 0 when the spaces became fewer than it. */
  function From(cur: nat, n: nat): nat { if cur >= n then 0 else cur }

  function BeatSize(n: nat, max: nat): nat { if n < max then n else max }

  function Around(a: nat, n: nat): (r: nat)
    requires n > 0
    ensures a < 2 * n ==> r == if a < n then a else a - n
  {
    a % n
  }

  /** The cursor after `beats` beats over the same n spaces. */
  function CursorAfter(cur: nat, n: nat, max: nat, beats: nat): nat
    requires n > 0
    decreases beats
  {
    if beats == 0 then From(cur, n)
    else CursorAfter(Around(From(cur, n) + BeatSize(n, max), n), n, max, beats - 1)
  }

  class Slicer {
    var cur: nat

    constructor ()
      ensures cur == 0
    {
      cur := 0;
    }

    /** Takes min(|rows|, max) rows from the cursor on, wrapping, and leaves the cursor behind them. */
    method Slice(rows: seq<Row>, max: int) returns (out: seq<(SpaceId, nat)>, spaces: nat)
      modifies this
      ensures spaces == if max <= 0 then 0 else |rows|
      ensures max <= 0 || rows == [] ==> out == [] && cur == old(cur)
      ensures max > 0 && rows != [] ==>
                var n, k := |rows|, BeatSize(|rows|, max);
                && |out| == k && cur == Around(From(old(cur), n) + k, n)
                && forall i :: 0 <= i < k ==>
                     var r := rows[Around(From(old(cur), n) + i, n)];
                     out[i] == (r.id, r.sp.dmark)
    {
      out, spaces := [], 0;
      if max <= 0 {
        return;
      }
      spaces := |rows|;
      if rows == [] {
        return;
      }
      var k := if |rows| < max then |rows| else max;
      if cur >= |rows| { cur := 0; }
      for i := 0 to k
        invariant |out| == i && cur == From(old(cur), |rows|)
        invariant forall j :: 0 <= j < i ==>
                    var r := rows[Around(cur + j, |rows|)];
                    out[j] == (r.id, r.sp.dmark)
      {
        var r := rows[(cur + i) % |rows|];
        out := out + [(r.id, r.sp.dmark)];
      }
      cur := (cur + k) % |rows|;
    }
  }

  /** How far the row is ahead of where the next beat starts. */
  function Distance(cur: nat, n: nat, row: nat): nat
    requires row < n
  {
    var c := From(cur, n); if row >= c then row - c else row + n - c
  }

  /** Every space goes out: whatever the cursor, within any ceil(n / max) consecutive beats over
      n spaces - the beats with beat * max < n - each row is in some beat's slice. */
  lemma {:induction false} EverySpaceGoesOut(cur: nat, n: nat, max: nat, row: nat) returns (beat: nat, at: nat)
    requires row < n && max > 0
    ensures beat * max <= Distance(cur, n, row) < n && at < BeatSize(n, max)
    ensures Around(CursorAfter(cur, n, max, beat) + at, n) == row
    decreases Distance(cur, n, row)
  {
    hide Around;
    var k, c, d := BeatSize(n, max), From(cur, n), Distance(cur, n, row);
    if d < k {
      beat, at := 0, d;
    } else {
      var next := Around(c + k, n);
      assert Distance(next, n, row) == d - k;
      var b, i := EverySpaceGoesOut(next, n, max, row);
      beat, at := b + 1, i;
      assert beat * max == b * max + max;
    }
  }

  /** Where everything lies in the file: magic, version, marker and count, then twenty bytes a space -
      origin, incarnation, mark - and the check sum of all of that. */
  lemma FileLayout(marker: nat, caps: seq<Cap>, crc: seq<byte> -> nat, i: nat)
    requires i < |caps|
    ensures var b, at := File(marker, caps, crc), 20 + 20 * i;
      && |b| == 20 + 20 * |caps| + 4
      && b[..4] == [0x50, 0x43, 0x41, 0x4B] && b[4..8] == [1, 0, 0, 0]
      && b[8..16] == Le(marker, 8) && b[16..20] == Le(|caps|, 4)
      && b[at..at + 8] == Le(caps[i].oid, 8) && b[at + 8..at + 12] == Le(caps[i].incarn, 4)
      && b[at + 12..at + 20] == Le(caps[i].mark, 8)
      && b[|b| - 4..] == Le(crc(b[..|b| - 4]), 4)
  {
    MagicBytes();
    hide Le;
    EntryLies(caps, i);
    hide Entries;
    var b, e, at := File(marker, caps, crc), Entries(caps), 20 + 20 * i;
    assert b[..4] == Le(MAGIC, 4) && b[4..8] == Le(VERSION, 4) && b[..|b| - 4] == Body(marker, caps);
    assert b[at..at + 20] == e[20 * i..20 * i + 20];
    var x := b[at..at + 20];
    assert b[at..at + 8] == x[..8] && b[at + 8..at + 12] == x[8..12] && b[at + 12..at + 20] == x[12..];
  }

  lemma MagicBytes()
    ensures Le(MAGIC, 4) == [0x50, 0x43, 0x41, 0x4B] && Le(VERSION, 4) == [1, 0, 0, 0]
  {
    assert Le(0x4B, 1) == [0x4B] && Le(0x4B41, 2) == [0x41, 0x4B] && Le(0x4B4143, 3) == [0x43, 0x41, 0x4B];
    assert Le(0, 1) == [0] && Le(0, 2) == [0, 0] && Le(0, 3) == [0, 0, 0];
  }

  lemma {:induction false} EntryLies(caps: seq<Cap>, i: nat)
    requires i < |caps|
    ensures Entries(caps)[ENTRY * i..ENTRY * i + ENTRY] == EntryOf(caps[i])
    decreases |caps|
  {
    hide EntryOf;
    var n := |caps| - 1;
    if i < n {
      EntryLies(caps[..n], i);
      assert Entries(caps)[..ENTRY * n] == Entries(caps[..n]);
      assert Entries(caps)[ENTRY * i..ENTRY * i + ENTRY] == Entries(caps)[..ENTRY * n][ENTRY * i..ENTRY * i + ENTRY];
    }
  }
}
