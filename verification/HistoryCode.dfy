/** The table of src/clhist.c in its array, and its saved form. */
module HistoryCode {
  import opened Bytes
  import opened Options
  import opened History

  const ENTRY_SIZE := 24

  // ---- the saved form ----

  function EntryBytes(e: Entry): (s: seq<byte>)
    ensures |s| == |e.ident| + 8
  {
    e.ident + Le(e.node, 2) + Le(0, 2) + Le(e.seen, 4)
  }

  function Entries(ents: seq<Entry>): seq<byte> {
    if ents == [] then [] else Entries(ents[..|ents| - 1]) + EntryBytes(ents[|ents| - 1])
  }

  function Saved(ents: seq<Entry>): seq<byte> { Le(|ents|, 2) + Entries(ents) }

  datatype Loaded = Refused(why: Why) | Loaded(ents: seq<Entry>, clock: nat)
  datatype Why = Short | Count | Trunc | Dup

  function EntryAt(b: seq<byte>, at: nat): Entry
    requires at + ENTRY_SIZE <= |b|
  {
    Entry(b[at..at + 16], UnLe(b[at + 16..at + 18]), UnLe(b[at + 20..at + 24]))
  }

  /** The first k entries of a saved table. */
  function Parsed(b: seq<byte>, k: nat): (ents: seq<Entry>)
    requires 2 + k * ENTRY_SIZE <= |b|
    ensures |ents| == k
  {
    if k == 0 then [] else Parsed(b, k - 1) + [EntryAt(b, 2 + (k - 1) * ENTRY_SIZE)]
  }

  function Latest(ents: seq<Entry>): (t: nat)
    ensures forall i :: 0 <= i < |ents| ==> ents[i].seen <= t
    ensures t > 0 ==> exists i :: 0 <= i < |ents| && ents[i].seen == t
  {
    if ents == [] then 0
    else
      var t, e := Latest(ents[..|ents| - 1]), ents[|ents| - 1];
      assert ents[|ents| - 1] == e && forall i :: 0 <= i < |ents| - 1 ==> ents[..|ents| - 1][i] == ents[i];
      if e.seen > t then e.seen else t
  }

  function Load(b: seq<byte>): Loaded {
    if |b| < 2 then Refused(Short)
    else
      var n := UnLe(b[..2]);
      if n > MAX then Refused(Count)
      else if |b| != 2 + n * ENTRY_SIZE then Refused(Trunc)
      else if !Distinct(Parsed(b, n)) then Refused(Dup)
      else Loaded(Parsed(b, n), Latest(Parsed(b, n)))
  }

  /** What the fixed-width fields can hold. */
  predicate Fits(e: Entry) { |e.ident| == 16 && e.node < 0x1_0000 && e.seen < 0x1_0000_0000 }

  predicate AllFit(ents: seq<Entry>) { forall i :: 0 <= i < |ents| ==> Fits(ents[i]) }

  lemma EntryBack(b: seq<byte>, at: nat, e: Entry)
    requires Fits(e) && at + ENTRY_SIZE <= |b| && b[at..at + ENTRY_SIZE] == EntryBytes(e)
    ensures EntryAt(b, at) == e
  {
    hide UnLe;
    hide Le;
    Sizes();
    LeRound(e.node, 2);
    LeRound(e.seen, 4);
    var s := EntryBytes(e);
    assert b[at..at + 16] == s[..16] == e.ident;
    assert b[at + 16..at + 18] == s[16..18] == Le(e.node, 2);
    assert b[at + 20..at + 24] == s[20..24] == Le(e.seen, 4);
  }

  lemma {:induction false} EntriesSize(ents: seq<Entry>)
    requires AllFit(ents)
    ensures |Entries(ents)| == |ents| * ENTRY_SIZE
    decreases |ents|
  {
    if ents != [] { EntriesSize(ents[..|ents| - 1]); }
  }

  lemma {:induction false} ParsedBack(b: seq<byte>, ents: seq<Entry>)
    requires AllFit(ents) && |b| >= 2 + |ents| * ENTRY_SIZE && b[2..2 + |ents| * ENTRY_SIZE] == Entries(ents)
    ensures Parsed(b, |ents|) == ents
    decreases |ents|
  {
    hide EntryBytes;
    hide EntryAt;
    if ents != [] {
      var k := |ents| - 1;
      var front, e := ents[..k], ents[k];
      var at := 2 + k * ENTRY_SIZE;
      EntriesSize(front);
      assert Fits(e);
      Cut(b, at, Entries(front), EntryBytes(e));
      ParsedBack(b, front);
      EntryBack(b, at, e);
    }
  }

  lemma Cut(b: seq<byte>, at: nat, x: seq<byte>, y: seq<byte>)
    requires 2 <= at <= at + |y| <= |b| && |x| == at - 2 && b[2..at + |y|] == x + y
    ensures b[2..at] == x && b[at..at + |y|] == y
  {
    var t := b[2..at + |y|];
    assert b[2..at] == t[..at - 2] && b[at..at + |y|] == t[at - 2..];
  }

  lemma NewestIsHeld(ents: seq<Entry>, notes: seq<Sighting>)
    requires Tracks(ents, notes) && notes != []
    ensures Holds(ents, notes[|notes| - 1].ident)
  {
    assert LeftOut(ents, notes, notes[|notes| - 1].ident);
    assert |ents| > 0 ==> Right(ents[0], notes);
  }

  /** In a history that tracks its notes, the newest entry carries the clock. */
  lemma ClockIsLatest(ents: seq<Entry>, notes: seq<Sighting>)
    requires Tracks(ents, notes)
    ensures Latest(ents) == |notes|
  {
    forall i | 0 <= i < |ents| ensures ents[i].seen <= |notes| { assert Right(ents[i], notes); }
    if notes != [] {
      NewestIsHeld(ents, notes);
      var i :| 0 <= i < |ents| && ents[i].ident == notes[|notes| - 1].ident;
      assert Right(ents[i], notes);
    }
  }

  /** Any table of entries that fit, reachable or not: loaded as it was saved if no identity is in it twice,
      and refused for that if one is. */
  lemma SavedOrRefused(ents: seq<Entry>)
    requires AllFit(ents) && |ents| <= MAX
    ensures Load(Saved(ents)) == if Distinct(ents) then Loaded(ents, Latest(ents)) else Refused(Dup)
  {
    hide UnLe;
    hide Le;
    hide Parsed;
    hide Entries;
    hide Distinct;
    Sizes();
    LeRound(|ents|, 2);
    EntriesSize(ents);
    var b := Saved(ents);
    assert b[..2] == Le(|ents|, 2) && b[2..2 + |ents| * ENTRY_SIZE] == Entries(ents);
    ParsedBack(b, ents);
  }

  /** A history of fewer than 2^32 notes is saved and loaded whole, its clock included. */
  lemma SavedIsLoaded(ents: seq<Entry>, notes: seq<Sighting>)
    requires Tracks(ents, notes) && AllFit(ents)
    ensures Load(Saved(ents)) == Loaded(ents, |notes|)
  {
    ClockIsLatest(ents, notes);
    Sound(ents, notes);
    SavedOrRefused(ents);
  }

  lemma Sound(ents: seq<Entry>, notes: seq<Sighting>)
    requires Tracks(ents, notes)
    ensures |ents| <= MAX && Distinct(ents)
  {
  }

  lemma {:induction false} ParsedAt(b: seq<byte>, k: nat, i: nat)
    requires 2 + k * ENTRY_SIZE <= |b| && i < k
    ensures Parsed(b, k)[i] == EntryAt(b, 2 + i * ENTRY_SIZE)
    decreases k
  {
    if i < k - 1 { ParsedAt(b, k - 1, i); }
  }

  /** The sixteen bytes that name the i-th entry. */
  function NameAt(b: seq<byte>, i: nat): seq<byte>
    requires 2 + i * 24 + 16 <= |b|
  {
    b[2 + i * 24..2 + i * 24 + 16]
  }

  /** What is made of any bytes: a count of at most 1024 and just as many entries of 24 bytes, no two
      named alike, or the reason it is refused; what is loaded is named as the bytes say. */
  lemma LoadDecides(b: seq<byte>)
    requires |b| >= 2
    ensures var n := UnLe(b[..2]);
      && (Load(b) == Refused(Count) <==> n > 1024)
      && (Load(b) == Refused(Trunc) <==> n <= 1024 && |b| != 2 + n * 24)
      && (n <= 1024 && |b| == 2 + n * 24 ==>
           && (Load(b) == Refused(Dup) <==> exists i, j :: 0 <= i < j < n && NameAt(b, i) == NameAt(b, j))
           && (Load(b) != Refused(Dup) ==>
                 && Load(b).Loaded? && |Load(b).ents| == n
                 && forall i :: 0 <= i < n ==> Load(b).ents[i].ident == NameAt(b, i)))
  {
    hide UnLe;
    var n := UnLe(b[..2]);
    if n <= 1024 && |b| == 2 + n * 24 {
      var ents := Parsed(b, n);
      forall i | 0 <= i < n ensures ents[i].ident == NameAt(b, i) { ParsedAt(b, n, i); }
      hide NameAt;
      hide Parsed;
      if exists i, j :: 0 <= i < j < n && NameAt(b, i) == NameAt(b, j) {
        var i, j :| 0 <= i < j < n && NameAt(b, i) == NameAt(b, j);
        assert ents[i].ident == ents[j].ident;
      }
    }
  }

  // ---- the code ----

  class Clhist {
    const ent: array<Entry>
    var n: nat
    var clock: nat
    ghost var notes: seq<Sighting>

    ghost predicate Valid()
      reads this, ent
    {
      ent.Length == MAX && n <= MAX && clock == |notes| && Tracks(ent[..n], notes)
    }

    constructor ()
      ensures Valid() && notes == []
    {
      ent := new Entry[MAX](i => Entry([], 0, 0));
      n, clock, notes := 0, 0, [];
    }

    method Find(x: Ident) returns (i: int)
      requires Valid()
      ensures i < n && (i >= 0 ==> ent[i].ident == x)
      ensures i >= 0 <==> Holds(ent[..n], x)
    {
      hide Tracks;
      for k := 0 to n
        invariant forall j :: 0 <= j < k ==> ent[j].ident != x
      {
        if ent[k].ident == x {
          assert ent[..n][k].ident == x;
          return k;
        }
      }
      i := -1;
    }

    method Oldest() returns (k: nat)
      requires Valid() && n == MAX
      ensures k < n && IsOldest(ent[..n], k)
    {
      hide Tracks;
      k := 0;
      for j := 1 to n
        invariant k < n && forall i :: 0 <= i < j ==> ent[k].seen <= ent[i].seen
      {
        if ent[j].seen < ent[k].seen { k := j; }
      }
    }

    /** Where to put a sighting of x. */
    method SlotOf(x: Ident) returns (i: nat, known: bool)
      requires Valid()
      ensures i <= n && i < MAX && SlotFor(ent[..n], x, i) && (known <==> Holds(ent[..n], x))
    {
      hide Tracks;
      var f := Find(x);
      known := f >= 0;
      if f >= 0 {
        i := f;
      } else if n < MAX {
        i := n;
      } else {
        i := Oldest();
      }
    }

    method Put(i: nat, e: Entry)
      requires i <= n <= MAX == ent.Length && i < MAX
      modifies ent, this`n
      ensures n <= MAX && ent[..n] == Placed(old(ent[..n]), i, e)
    {
      ghost var was := ent[..n];
      ent[i] := e;
      if i == n { n := n + 1; }
      assert ent[..n] == Placed(was, i, e);
    }

    /** A daemon was seen: was it known? It is reported new only when it never was noted before, or
        1024 others were since. */
    method Note(x: Ident, node: nat) returns (known: bool)
      requires Valid()
      modifies this, ent
      ensures Valid() && notes == old(notes) + [Sighting(x, node)]
      ensures known <==> Recent(old(notes), x)
    {
      hide Recent;
      hide Holds;
      hide SlotFor;
      hide Tracks;
      ExactlyTheRecent(ent[..n], notes, x);
      ghost var was, s := ent[..n], Sighting(x, node);
      var i;
      i, known := SlotOf(x);
      NoteTracks(was, notes, s, i);
      clock := clock + 1;
      Put(i, Entry(x, node, clock));
      notes := notes + [s];
    }

    /** The node id it was last seen under, 0 when it is not in the table. */
    method LastId(x: Ident) returns (node: nat)
      requires Valid()
      ensures if Recent(notes, x) then LastAt(notes, x) > 0 && node == notes[LastAt(notes, x) - 1].node else node == 0
    {
      ExactlyTheRecent(ent[..n], notes, x);
      var i := Find(x);
      node := 0;
      if i >= 0 {
        assert Right(ent[..n][i], notes);
        node := ent[i].node;
      }
    }

    method Encode(cap: nat) returns (r: Option<seq<byte>>)
      requires Valid() && AllFit(ent[..n])
      ensures r == if cap < 2 + n * ENTRY_SIZE then None else Some(Saved(ent[..n]))
    {
      hide Tracks;
      hide EntryBytes;
      if cap < 2 + n * ENTRY_SIZE { return None; }
      var b := Le(n, 2);
      for i := 0 to n
        invariant b == Le(n, 2) + Entries(ent[..i])
      {
        assert ent[..i + 1][..i] == ent[..i];
        b := b + EntryBytes(ent[i]);
      }
      r := Some(b);
    }
  }

  method ParseAll(b: seq<byte>, n: nat) returns (ents: seq<Entry>, clock: nat)
    requires |b| == 2 + n * ENTRY_SIZE
    ensures ents == Parsed(b, n) && clock == Latest(ents)
  {
    hide EntryAt;
    ents, clock := [], 0;
    for i := 0 to n
      invariant ents == Parsed(b, i) && clock == Latest(ents)
    {
      var e := EntryAt(b, 2 + i * ENTRY_SIZE);
      assert (ents + [e])[..i] == ents;
      ents := ents + [e];
      if e.seen > clock { clock := e.seen; }
    }
  }

  method AllDistinct(ents: seq<Entry>) returns (distinct: bool)
    ensures distinct == Distinct(ents)
  {
    for i := 0 to |ents|
      invariant forall j, k :: 0 <= j < i && j < k < |ents| ==> ents[j].ident != ents[k].ident
    {
      for j := i + 1 to |ents|
        invariant forall k :: i < k < j ==> ents[i].ident != ents[k].ident
      {
        if ents[i].ident == ents[j].ident { return false; }
      }
    }
    distinct := true;
  }

  /** Read a saved table: entries, clock, and then no identity twice. */
  method Decode(b: seq<byte>) returns (r: Loaded)
    ensures r == Load(b)
  {
    hide UnLe;
    hide Parsed;
    hide Latest;
    hide Distinct;
    if |b| < 2 { return Refused(Short); }
    var n := UnLe(b[..2]);
    if n > MAX { return Refused(Count); }
    if |b| != 2 + n * ENTRY_SIZE { return Refused(Trunc); }
    var ents, clock := ParseAll(b, n);
    var distinct := AllDistinct(ents);
    if !distinct { return Refused(Dup); }
    r := Loaded(ents, clock);
  }

  /** Where everything lies in the saved form: the count, then 24 bytes an entry - sixteen of identity,
      two of node id, two of nothing, four of time. */
  lemma SavedLayout(ents: seq<Entry>, i: nat)
    requires AllFit(ents) && i < |ents|
    ensures var b, at := Saved(ents), 2 + 24 * i;
      && |b| == 2 + 24 * |ents| && b[..2] == Le(|ents|, 2)
      && b[at..at + 16] == ents[i].ident && b[at + 16..at + 18] == Le(ents[i].node, 2)
      && b[at + 18..at + 20] == Le(0, 2) && b[at + 20..at + 24] == Le(ents[i].seen, 4)
  {
    hide Le;
    EntriesSize(ents);
    EntryLies(ents, i);
    assert Fits(ents[i]);
    hide Entries;
    var b, e, at := Saved(ents), Entries(ents), 2 + 24 * i;
    assert b[at..at + 24] == e[24 * i..24 * i + 24];
    var x := b[at..at + 24];
    assert b[at..at + 16] == x[..16] && b[at + 16..at + 18] == x[16..18];
    assert b[at + 18..at + 20] == x[18..20] && b[at + 20..at + 24] == x[20..24];
  }

  lemma {:induction false} EntryLies(ents: seq<Entry>, i: nat)
    requires AllFit(ents) && i < |ents|
    ensures |Entries(ents)| == 24 * |ents| && Entries(ents)[24 * i..24 * i + 24] == EntryBytes(ents[i])
    decreases |ents|
  {
    hide EntryBytes;
    EntriesSize(ents);
    var n := |ents| - 1;
    EntriesSize(ents[..n]);
    assert Fits(ents[n]);
    if i < n {
      EntryLies(ents[..n], i);
      assert Entries(ents)[..24 * n] == Entries(ents[..n]);
      assert Entries(ents)[24 * i..24 * i + 24] == Entries(ents)[..24 * n][24 * i..24 * i + 24];
    } else {
      assert Entries(ents) == Entries(ents[..n]) + EntryBytes(ents[n]) && |Entries(ents[..n])| == 24 * n;
    }
  }
}
