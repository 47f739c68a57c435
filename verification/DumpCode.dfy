/** The code around the dump chunks: perfdump's chunk writer, bucket ranges and discarded
    collections (cli/perfdump.c), perfload's chunk reader and verifier (cli/perfload.c). */
module DumpCode {
  import opened Bytes
  import opened Options
  import opened Crc
  import opened Dump

  lemma {:induction false} BodyEnds(rs: seq<Rec>, r: Rec)
    ensures Body(rs + [r]) == Body(rs) + RecBytes(r)
  {
    hide RecBytes;
    if rs == [] {
      assert Body([r]) == RecBytes(r) + Body([]);
    } else {
      BodyEnds(rs[1..], r);
      assert (rs + [r])[1..] == rs[1..] + [r];
      assert RecBytes(rs[0]) + (Body(rs[1..]) + RecBytes(r)) == (RecBytes(rs[0]) + Body(rs[1..])) + RecBytes(r);
    }
  }

  /** A CRC moved over three pieces is the CRC moved over the whole. */
  lemma UpdateThree(crc: bv32, f: seq<byte>, a: seq<byte>, b: seq<byte>, c: seq<byte>)
    requires crc == Update(0, f)
    ensures Update(Update(Update(crc, a), b), c) == Update(0, f + (a + b + c))
  {
    hide Update;
    UpdateConcat(0, f, a);
    UpdateConcat(0, f + a, b);
    UpdateConcat(0, f + a + b, c);
    assert f + a + b + c == f + (a + b + c);
  }

  class ChunkWriter {
    const tab: array<bv32>
    var file: seq<byte>
    var records: nat
    var bytes: nat
    var crc: bv32
    ghost var recs: seq<Rec>

    ghost predicate Valid()
      reads this, tab
    {
      && IsTable(tab) && file == MAGIC + Body(recs)
      && records == |recs| && bytes == |file| && crc == Update(0, file)
    }

    constructor (tab: array<bv32>)
      requires IsTable(tab)
      ensures Valid() && recs == [] && this.tab == tab
    {
      this.tab := tab;
      file := MAGIC;
      records, bytes, recs := 0, 4, [];
      new;
      hide Update;
      hide IsTable;
      hide Body;
      NoBody();
      crc := CrcUpdate(tab, 0, file);
    }

    static lemma NoBody()
      ensures MAGIC + Body([]) == MAGIC
    {
    }

    /** One record behind the others; `room` is how many bytes the disk still takes. */
    method Put(r: Rec, room: nat) returns (rc: int)
      requires Valid()
      modifies this
      ensures (rc == 0 || rc == -1) && (rc == 0 <==> |RecBytes(r)| <= room)
      ensures rc == 0 ==> Valid() && recs == old(recs) + [r]
      ensures rc != 0 ==> file == old(file) + RecBytes(r)[..room] && recs == old(recs)
    {
      hide Body;
      hide Update;
      hide IsTable;
      var h := Head(r);
      hide Head;
      var out := h + r.key + r.val;
      ghost var was := file;
      if |out| > room {
        file := file + out[..room];
        return -1;
      }
      file := file + out;
      var c := CrcUpdate(tab, crc, h);
      c := CrcUpdate(tab, c, r.key);
      c := CrcUpdate(tab, c, r.val);
      UpdateThree(crc, was, h, r.key, r.val);
      crc := c;
      records := records + 1;
      bytes := bytes + 25 + |r.key| + |r.val|;
      BodyEnds(recs, r);
      assert was + RecBytes(r) == MAGIC + (Body(recs) + RecBytes(r));
      recs := recs + [r];
      rc := 0;
    }

    /** The trailer: the file is a whole chunk, and the manifest's figures are right for it. It fails
        exactly when the disk takes fewer than 12 bytes more or the file does not close. */
    method Finish(room: nat, closes: bool) returns (rc: int)
      requires Valid()
      modifies this
      ensures (rc == 0 || rc == -1) && (rc == 0 <==> room >= 12 && closes)
      ensures rc == 0 ==> file == File(recs) && crc == Update(0, file) && bytes == |file| && records == |recs|
      ensures recs == old(recs)
    {
      hide Body;
      hide Update;
      hide IsTable;
      var t := Trailer(records);
      if room < 12 || !closes {
        file := file + t[..if room < 12 then room else 12];
        return -1;
      }
      UpdateConcat(0, file, t);
      crc := CrcUpdate(tab, crc, t);
      file := file + t;
      bytes := bytes + 12;
      rc := 0;
    }
  }

  // ---- perfload ----

  class ChunkReader {
    const tab: array<bv32>
    var input: seq<byte>
    var crc: bv32
    var count: nat
    var trailer: nat
    ghost var taken: seq<byte>

    ghost predicate Valid()
      reads this, tab
    {
      IsTable(tab) && crc == Update(0, taken)
    }

    constructor (tab: array<bv32>, file: seq<byte>)
      requires IsTable(tab)
      ensures Valid() && input == file && taken == [] && count == 0 && trailer == 0 && this.tab == tab
    {
      this.tab := tab;
      input, crc, count, trailer, taken := file, 0, 0, 0, [];
      NothingYet();
    }

    static lemma NothingYet()
      ensures Update(0, []) == 0
    {
    }

    method Open() returns (ok: bool)
      requires Valid() && taken == []
      modifies this
      ensures ok <==> |old(input)| >= 4 && old(input)[..4] == MAGIC
      ensures ok ==> Valid() && taken == MAGIC && input == old(input)[4..] && count == old(count) && trailer == old(trailer)
    {
      hide Update;
      hide IsTable;
      ok := false;
      if |input| < 4 || input[..4] != MAGIC { return; }
      crc := CrcUpdate(tab, 0, input[..4]);
      taken := MAGIC;
      input := input[4..];
      ok := true;
    }

    /** The next record: 1, 0 at the trailer, -1 for anything else. */
    method NextRec() returns (rc: int, rec: Rec)
      requires Valid()
      modifies this
      ensures match Next(old(input))
        case Got(r, rest) => rc == 1 && rec == r && input == rest && count == old(count) + 1
        case End(t, rest) => rc == 0 && trailer == t && input == rest && count == old(count)
        case Bad => rc == -1
      ensures rc >= 0 ==> Valid() && taken + input == old(taken) + old(input)
    {
      hide Update;
      hide IsTable;
      hide UnLe;
      rec := Rec([], [], 0, 0, 0);
      ghost var s := input;
      if |input| < 4 { return -1, rec; }
      var kl := UnLe(input[..4]);
      if kl == END_MARK {
        if |input| < 12 { return -1, rec; }
        UpdateThree(crc, taken, input[..4], input[4..12], []);
        assert input[..4] + input[4..12] + [] == input[..12];
        crc := CrcUpdate(tab, crc, input[..4]);
        crc := CrcUpdate(tab, crc, input[4..12]);
        NoMore(crc);
        trailer := UnLe(input[4..12]);
        taken := taken + input[..12];
        input := input[12..];
        return 0, rec;
      }
      if |input| < 25 { return -1, rec; }
      var vl := UnLe(input[4..8]);
      if kl > READ_MAX || vl > READ_MAX { return -1, rec; }
      if |input| < 25 + kl + vl { return -1, rec; }
      rec := Rec(input[25..25 + kl], input[25 + kl..25 + kl + vl], UnLe(input[8..16]), UnLe(input[16..24]), input[24]);
      UpdateThree(crc, taken, input[..25], rec.key, rec.val);
      assert input[..25] + rec.key + rec.val == input[..25 + kl + vl];
      crc := CrcUpdate(tab, crc, input[..25]);
      crc := CrcUpdate(tab, crc, rec.key);
      crc := CrcUpdate(tab, crc, rec.val);
      taken := taken + input[..25 + kl + vl];
      input := input[25 + kl + vl..];
      count := count + 1;
      rc := 1;
    }

    static lemma NoMore(crc: bv32)
      ensures Update(crc, []) == crc
    {
      NotNot(crc);
    }
  }

  /** Read a whole file and hold it against its manifest entry. */
  method Verify(tab: array<bv32>, file: seq<byte>, records: nat, crc: bv32) returns (good: bool)
    requires IsTable(tab)
    ensures good <==> Accepts(file, records, crc)
  {
    hide Update;
    hide IsTable;
    hide Next;
    var r := new ChunkReader(tab, file);
    var ok := r.Open();
    if !ok { return false; }
    var rc, rec := 1, Rec([], [], 0, 0, 0);
    ghost var all := ReadAll(file[4..]);
    ghost var got: seq<Rec> := [];
    assert MAGIC + file[4..] == file;
    assert all.Some? ==> all.value.(recs := [] + all.value.recs) == all.value;
    while rc == 1
      invariant fresh(r) && r.tab == tab
      invariant rc >= 0 ==> r.Valid() && r.taken + r.input == file && r.count == |got|
      invariant rc == 1 ==> all == Behind(got, ReadAll(r.input))
      invariant rc == 0 ==> all == Some(Read(got, r.trailer, r.input))
      invariant rc < 0 ==> all == None
      invariant -1 <= rc <= 1
      decreases rc, |r.input|
    {
      ghost var s := r.input;
      Reads(got, s);
      rc, rec := r.NextRec();
      if rc == 1 { got := got + [rec]; }
    }
    good := rc == 0 && r.count == records && r.trailer == records && r.crc == crc;
    if rc == 0 {
      assert file[..|file| - |r.input|] == r.taken;
    }
  }

  /** The records read so far, before those still to come. */
  ghost function Behind(got: seq<Rec>, d: Option<Read>): Option<Read> {
    if d.None? then None else Some(d.value.(recs := got + d.value.recs))
  }

  lemma Reads(got: seq<Rec>, s: seq<byte>)
    ensures Behind(got, ReadAll(s)) ==
      match Next(s)
      case Bad => None
      case End(t, rest) => Some(Read(got, t, rest))
      case Got(r, rest) => Behind(got + [r], ReadAll(rest))
  {
    hide Next;
    match Next(s)
    case Bad =>
    case End(t, rest) => assert got + [] == got;
    case Got(r, rest) =>
      if ReadAll(rest).Some? {
        var more := ReadAll(rest).value.recs;
        assert (got + [r]) + more == got + ([r] + more);
      }
  }

  // ---- perfdump's bucket ranges ----

  /** Where the i-th of n walkers over nb buckets starts. */
  function Lo(nb: nat, n: nat, i: nat): nat
    requires n > 0
  {
    nb * i / n
  }

  function Hi(nb: nat, n: nat, i: nat): nat
    requires n > 0
  {
    if i == n - 1 then nb else nb * (i + 1) / n
  }

  lemma Times(x: int, y: int, n: nat)
    ensures x <= y ==> x * n <= y * n
  {
  }

  lemma Divides(a: nat, n: nat, q: nat)
    requires n > 0 && q * n <= a < (q + 1) * n
    ensures a / n == q
  {
    var d := a / n;
    assert d * n <= a < (d + 1) * n;
    Times(d + 1, q, n);
    Times(q + 1, d, n);
  }

  lemma LoEnds(nb: nat, n: nat)
    requires n > 0
    ensures Lo(nb, n, 0) == 0 && Lo(nb, n, n) == nb
  {
    assert nb * n < (nb + 1) * n;
    Divides(nb * n, n, nb);
    Divides(0, n, 0);
  }

  lemma LoRises(nb: nat, n: nat, i: nat)
    requires 0 < n <= nb
    ensures Lo(nb, n, i) < Lo(nb, n, i + 1)
  {
    var q := Lo(nb, n, i);
    assert nb * (i + 1) == nb * i + nb;
    assert q * n <= nb * i;
    assert (q + 1) * n <= nb * (i + 1);
    var d := nb * (i + 1) / n;
    assert nb * (i + 1) < (d + 1) * n;
    Times(d + 1, q + 1, n);
  }

  /** With no more walkers than buckets - perfdump starts no more - the ranges are none of them
      empty and every bucket is in exactly one of them. */
  lemma {:induction false} RangesTile(nb: nat, n: nat, b: nat) returns (i: nat)
    requires 0 < n <= nb && b < nb
    ensures i < n && Lo(nb, n, i) <= b < Hi(nb, n, i)
    ensures forall j :: 0 <= j < n && Lo(nb, n, j) <= b < Hi(nb, n, j) ==> j == i
    ensures forall j :: 0 <= j < n ==> Lo(nb, n, j) < Hi(nb, n, j)
  {
    hide Lo;
    LoEnds(nb, n);
    forall j | 0 <= j < n ensures Hi(nb, n, j) == Lo(nb, n, j + 1) { HiIsNext(nb, n, j); }
    forall j | 0 <= j < n ensures Lo(nb, n, j) < Lo(nb, n, j + 1) { LoRises(nb, n, j); }
    hide Hi;
    i := 0;
    while Lo(nb, n, i + 1) <= b
      invariant i < n && Lo(nb, n, i) <= b
      decreases n - i
    {
      i := i + 1;
    }
    forall j | 0 <= j < n && Lo(nb, n, j) <= b < Hi(nb, n, j) ensures j == i {
      if j < i { LoMonotone(nb, n, j + 1, i); } else if j > i { LoMonotone(nb, n, i + 1, j); }
    }
  }

  lemma HiIsNext(nb: nat, n: nat, j: nat)
    requires j < n
    ensures Hi(nb, n, j) == Lo(nb, n, j + 1)
  {
    LoEnds(nb, n);
  }

  lemma {:induction false} LoMonotone(nb: nat, n: nat, i: nat, j: nat)
    requires 0 < n <= nb && i <= j
    ensures Lo(nb, n, i) <= Lo(nb, n, j)
    decreases j - i
  {
    hide Lo;
    if i < j {
      LoRises(nb, n, i);
      LoMonotone(nb, n, i + 1, j);
    }
  }

  // ---- perfdump's discarded collections ----

  datatype ChunkEntry = ChunkEntry(col: string, records: nat, bytes: nat, complete: bool)

  function Kept(cs: seq<ChunkEntry>, col: string): seq<ChunkEntry> {
    if cs == [] then []
    else Kept(cs[..|cs| - 1], col) + (if cs[|cs| - 1].col != col then [cs[|cs| - 1]] else [])
  }

  datatype Totals = Totals(records: nat, bytes: nat)

  function Added(t: Totals, r: ChunkEntry): Totals {
    if r.complete then Totals(t.records + r.records, t.bytes + r.bytes) else t
  }

  /** Records and bytes of the complete chunks. */
  function Complete(cs: seq<ChunkEntry>): Totals {
    if cs == [] then Totals(0, 0) else Added(Complete(cs[..|cs| - 1]), cs[|cs| - 1])
  }

  /** Drops every entry of a collection in place: the others stay, in order, and both totals stay those
      of the complete chunks. */
  method Discard(chunks: array<ChunkEntry>, n: nat, col: string, total: Totals)
    returns (k: nat, left: Totals, gone: nat)
    requires n <= chunks.Length && total == Complete(chunks[..n])
    modifies chunks
    ensures k <= n && chunks[..k] == Kept(old(chunks[..n]), col)
    ensures left == Complete(chunks[..k]) && gone == n - k
  {
    hide Kept;
    hide Complete;
    k, gone, left := 0, 0, total;
    ghost var was := chunks[..n];
    NoneYet(col);
    for i := 0 to n
      invariant k + gone == i
      invariant chunks[..k] == Kept(was[..i], col)
      invariant forall j :: i <= j < n ==> chunks[j] == was[j]
      invariant left.records + Complete(was[..i]).records == total.records + Complete(chunks[..k]).records
      invariant left.bytes + Complete(was[..i]).bytes == total.bytes + Complete(chunks[..k]).bytes
    {
      var r := chunks[i];
      OneMore(was, i, col);
      CompleteGrows(was, i + 1);
      if r.col != col {
        ghost var kept := chunks[..k];
        chunks[k] := r;
        assert chunks[..k + 1] == kept + [r];
        CompleteEnds(kept, r);
        k := k + 1;
      } else {
        if r.complete { left := Totals(left.records - r.records, left.bytes - r.bytes); }
        gone := gone + 1;
      }
    }
    assert was[..n] == was;
  }

  lemma NoneYet(col: string)
    ensures Kept([], col) == [] && Complete([]) == Totals(0, 0)
  {
  }

  lemma CompleteEnds(cs: seq<ChunkEntry>, r: ChunkEntry)
    ensures Complete(cs + [r]) == Added(Complete(cs), r)
  {
    assert (cs + [r])[..|cs|] == cs;
  }

  lemma OneMore(cs: seq<ChunkEntry>, i: nat, col: string)
    requires i < |cs|
    ensures Kept(cs[..i + 1], col) == Kept(cs[..i], col) + (if cs[i].col != col then [cs[i]] else [])
    ensures Complete(cs[..i + 1]) == Added(Complete(cs[..i]), cs[i])
  {
    assert cs[..i + 1][..i] == cs[..i];
  }

  lemma {:induction false} CompleteGrows(cs: seq<ChunkEntry>, i: nat)
    requires i <= |cs|
    ensures Complete(cs[..i]).records <= Complete(cs).records && Complete(cs[..i]).bytes <= Complete(cs).bytes
    decreases |cs|
  {
    if i < |cs| {
      CompleteGrows(cs[..|cs| - 1], i);
      assert cs[..|cs| - 1][..i] == cs[..i];
    } else {
      assert cs[..i] == cs;
    }
  }

  /** The entries that stay are exactly those of other collections, each as often as it was there. */
  lemma {:induction false} KeptMeans(cs: seq<ChunkEntry>, col: string, c: ChunkEntry)
    ensures multiset(Kept(cs, col))[c] == if c.col != col then multiset(cs)[c] else 0
  {
    if cs != [] {
      var front, r := cs[..|cs| - 1], cs[|cs| - 1];
      assert cs == front + [r];
      KeptMeans(front, col, c);
    }
  }

  /** And in their old order. */
  lemma {:induction false} KeptInOrder(cs: seq<ChunkEntry>, col: string) returns (at: seq<nat>)
    ensures Picks(at, Kept(cs, col), cs)
  {
    at := [];
    if cs != [] {
      hide Picks;
      var n := |cs| - 1;
      at := KeptInOrder(cs[..n], col);
      OneMorePicked(at, Kept(cs[..n], col), cs);
      if cs[n].col != col { at := at + [n]; }
    }
  }

  lemma OneMorePicked(at: seq<nat>, some: seq<ChunkEntry>, cs: seq<ChunkEntry>)
    requires cs != [] && Picks(at, some, cs[..|cs| - 1])
    ensures Picks(at, some, cs) && Picks(at + [|cs| - 1], some + [cs[|cs| - 1]], cs)
  {
  }

  /** Some of cs, from ascending places. */
  ghost predicate Picks(at: seq<nat>, some: seq<ChunkEntry>, cs: seq<ChunkEntry>) {
    && |at| == |some| && (forall i :: 0 <= i < |at| ==> at[i] < |cs| && some[i] == cs[at[i]])
    && forall i, j :: 0 <= i < j < |at| ==> at[i] < at[j]
  }

  /** Records, or bytes, of the chunks that are complete. */
  function SumOf(cs: seq<ChunkEntry>, of: ChunkEntry -> nat): nat {
    if cs == [] then 0 else (if cs[0].complete then of(cs[0]) else 0) + SumOf(cs[1..], of)
  }

  lemma {:induction false} SumEnds(cs: seq<ChunkEntry>, r: ChunkEntry, of: ChunkEntry -> nat)
    ensures SumOf(cs + [r], of) == SumOf(cs, of) + if r.complete then of(r) else 0
  {
    if cs == [] {
      assert [] + [r] == [r] && SumOf([r], of) == (if r.complete then of(r) else 0) + SumOf([], of);
    } else {
      SumEnds(cs[1..], r, of);
      assert (cs + [r])[1..] == cs[1..] + [r];
    }
  }

  lemma {:induction false} CompleteMeans(cs: seq<ChunkEntry>)
    ensures Complete(cs).records == SumOf(cs, (c: ChunkEntry) => c.records)
    ensures Complete(cs).bytes == SumOf(cs, (c: ChunkEntry) => c.bytes)
  {
    if cs != [] {
      var n := |cs| - 1;
      CompleteMeans(cs[..n]);
      SumEnds(cs[..n], cs[n], (c: ChunkEntry) => c.records);
      SumEnds(cs[..n], cs[n], (c: ChunkEntry) => c.bytes);
      assert cs == cs[..n] + [cs[n]];
    }
  }

  /** The walkers share evenly: each range is the buckets over the walkers, or one more. */
  lemma RangesEven(nb: nat, n: nat, i: nat)
    requires i < n
    ensures nb / n <= Hi(nb, n, i) - Lo(nb, n, i) <= nb / n + 1
  {
    HiIsNext(nb, n, i);
    var q, a, b := nb / n, Lo(nb, n, i), Lo(nb, n, i + 1);
    Floor(nb, n);
    Floor(nb * i, n);
    Floor(nb * (i + 1), n);
    assert nb * (i + 1) == nb * i + nb;
    Between(nb * i, nb, a, b, q, n);
  }

  lemma Floor(x: nat, n: nat)
    requires n > 0
    ensures x / n * n <= x < x / n * n + n
  {
  }

  lemma Between(x: nat, nb: nat, a: nat, b: nat, q: nat, n: nat)
    requires n > 0 && a * n <= x < a * n + n && b * n <= x + nb < b * n + n && q * n <= nb < q * n + n
    ensures q <= b - a <= q + 1
  {
    assert (a + q) * n == a * n + q * n && (b + 1) * n == b * n + n && (a + q + 2) * n == a * n + q * n + n + n;
    Times(b + 1, a + q, n);
    Times(a + q + 2, b, n);
  }
}
