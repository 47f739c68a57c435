/** The dump chunk format: written by cli/perfdump.c, read by cli/perfload.c. */
module Dump {
  import opened Bytes
  import opened Options
  import opened Crc

  const MAGIC: seq<byte> := [0x50, 0x43, 0x44, 0x31]
  const END_MARK := 0xFFFF_FFFF
  const READ_MAX := 0x1_0000       // the longest key or value the reader takes

  datatype Rec = Rec(key: seq<byte>, val: seq<byte>, exp: nat, ver: nat, flags: byte)

  /** What the record's fixed-width fields can say. */
  predicate Fits(r: Rec) {
    |r.key| < END_MARK && |r.val| <= END_MARK && r.exp < Pow256(8) && r.ver < Pow256(8)
  }

  predicate Small(r: Rec) { |r.key| <= READ_MAX && |r.val| <= READ_MAX }

  function Head(r: Rec): (h: seq<byte>)
    ensures |h| == 25
  {
    Le(|r.key|, 4) + Le(|r.val|, 4) + Le(r.exp, 8) + Le(r.ver, 8) + [r.flags]
  }

  function RecBytes(r: Rec): seq<byte> { Head(r) + r.key + r.val }

  function Body(rs: seq<Rec>): seq<byte> {
    if rs == [] then [] else RecBytes(rs[0]) + Body(rs[1..])
  }

  function Trailer(n: nat): (t: seq<byte>)
    ensures |t| == 12
  {
    Le(END_MARK, 4) + Le(n, 8)
  }

  /** A whole chunk file. */
  function File(rs: seq<Rec>): seq<byte> { MAGIC + Body(rs) + Trailer(|rs|) }

  // ---- reading ----

  datatype Step = Got(rec: Rec, rest: seq<byte>) | End(trailer: nat, rest: seq<byte>) | Bad

  function Next(s: seq<byte>): (r: Step)
    ensures r.Got? ==> |r.rest| < |s|
  {
    if |s| < 4 then Bad
    else
      var kl := UnLe(s[..4]);
      if kl == END_MARK then
        if |s| < 12 then Bad else End(UnLe(s[4..12]), s[12..])
      else if |s| < 25 then Bad
      else
        var vl := UnLe(s[4..8]);
        if kl > READ_MAX || vl > READ_MAX || |s| < 25 + kl + vl then Bad
        else Got(Rec(s[25..25 + kl], s[25 + kl..25 + kl + vl], UnLe(s[8..16]), UnLe(s[16..24]), s[24]), s[25 + kl + vl..])
  }

  datatype Read = Read(recs: seq<Rec>, trailer: nat, rest: seq<byte>)

  /** Record by record up to the trailer. */
  function ReadAll(s: seq<byte>): Option<Read>
    decreases |s|
  {
    match Next(s)
    case Bad => None
    case End(t, rest) => Some(Read([], t, rest))
    case Got(r, rest) =>
      match ReadAll(rest)
      case None => None
      case Some(d) => Some(d.(recs := [r] + d.recs))
  }

  // ---- what was written is what is read ----

  /** The head of a record, field by field. */
  lemma HeadFields(r: Rec, rest: seq<byte>)
    requires Fits(r)
    ensures var s := RecBytes(r) + rest;
      && UnLe(s[..4]) == |r.key| && UnLe(s[4..8]) == |r.val| && UnLe(s[8..16]) == r.exp && UnLe(s[16..24]) == r.ver
      && s[24] == r.flags
  {
    hide UnLe;
    hide Le;
    var s := RecBytes(r) + rest;
    assert s[..4] == Le(|r.key|, 4) && s[4..8] == Le(|r.val|, 4);
    assert s[8..16] == Le(r.exp, 8) && s[16..24] == Le(r.ver, 8);
    assert END_MARK < Pow256(4) by { Sizes(); }
    LeRound(|r.key|, 4);
    LeRound(|r.val|, 4);
    LeRound(r.exp, 8);
    LeRound(r.ver, 8);
  }

  lemma NextReads(r: Rec, rest: seq<byte>)
    requires Fits(r)
    ensures Next(RecBytes(r) + rest) == if Small(r) then Got(r, rest) else Bad
  {
    hide UnLe;
    hide Head;
    HeadFields(r, rest);
    var s := RecBytes(r) + rest;
    var kl, vl := |r.key|, |r.val|;
    assert s[25..25 + kl] == r.key && s[25 + kl..25 + kl + vl] == r.val && s[25 + kl + vl..] == rest;
  }

  lemma NextEnds(n: nat, rest: seq<byte>)
    requires n < Pow256(8)
    ensures Next(Trailer(n) + rest) == End(n, rest)
  {
    hide UnLe;
    hide Le;
    var s := Trailer(n) + rest;
    assert s[..4] == Le(END_MARK, 4) && s[4..12] == Le(n, 8) && s[12..] == rest;
    assert END_MARK < Pow256(4) by { Sizes(); }
    LeRound(END_MARK, 4);
    LeRound(n, 8);
  }

  /** A chunk reads back as exactly the records written if and only if every key and value is within
      what the reader takes; a single longer one - the writer takes those - makes it unreadable. */
  lemma {:induction false} ReadBack(rs: seq<Rec>, n: nat, rest: seq<byte>)
    requires n < Pow256(8) && forall i :: 0 <= i < |rs| ==> Fits(rs[i])
    ensures ReadAll(Body(rs) + Trailer(n) + rest) ==
      if (forall i :: 0 <= i < |rs| ==> Small(rs[i])) then Some(Read(rs, n, rest)) else None
    decreases |rs|
  {
    hide Trailer;
    hide RecBytes;
    hide Next;
    hide Small;
    hide Fits;
    if rs == [] {
      assert Body(rs) + Trailer(n) + rest == Trailer(n) + rest;
      NextEnds(n, rest);
    } else {
      var r, more := rs[0], rs[1..];
      ReadBack(more, n, rest);
      var tail := Body(more) + Trailer(n) + rest;
      assert Body(rs) + Trailer(n) + rest == RecBytes(r) + tail;
      NextReads(r, tail);
      assert rs == [r] + more;
      assert (forall i :: 0 <= i < |rs| ==> Small(rs[i])) <==> Small(r) && (forall i :: 0 <= i < |more| ==> Small(more[i]));
    }
  }

  // ---- what is read was written ----

  lemma UnHead(s: seq<byte>)
    requires |s| >= 25
    ensures s[..25] == Le(UnLe(s[..4]), 4) + Le(UnLe(s[4..8]), 4) + Le(UnLe(s[8..16]), 8) + Le(UnLe(s[16..24]), 8) + [s[24]]
    ensures UnLe(s[8..16]) < Pow256(8) && UnLe(s[16..24]) < Pow256(8)
  {
    hide UnLe;
    hide Le;
    UnLeRound(s[..4]);
    UnLeRound(s[4..8]);
    UnLeRound(s[8..16]);
    UnLeRound(s[16..24]);
    assert s[..25] == s[..4] + s[4..8] + s[8..16] + s[16..24] + [s[24]];
  }

  lemma NextWas(s: seq<byte>)
    ensures match Next(s)
      case Got(r, rest) => s == RecBytes(r) + rest && Fits(r) && Small(r)
      case End(t, rest) => s == Trailer(t) + rest
      case Bad => true
  {
    hide UnLe;
    hide Le;
    match Next(s)
    case Got(r, rest) =>
      UnHead(s);
      assert s == s[..25] + r.key + r.val + rest;
    case End(t, rest) =>
      UnLeRound(s[..4]);
      UnLeRound(s[4..12]);
      assert s == s[..4] + s[4..12] + rest;
    case Bad =>
  }

  /** Whatever the reader accepts is a chunk of the records it gives, up to its trailer. */
  lemma {:induction false} ReadWas(s: seq<byte>)
    requires ReadAll(s).Some?
    ensures var d := ReadAll(s).value;
      s == Body(d.recs) + Trailer(d.trailer) + d.rest && forall i :: 0 <= i < |d.recs| ==> Small(d.recs[i])
    decreases |s|
  {
    hide Trailer;
    hide RecBytes;
    hide Next;
    hide Small;
    NextWas(s);
    match Next(s)
    case Got(r, rest) =>
      ReadWas(rest);
      var d := ReadAll(rest).value;
      assert ([r] + d.recs)[1..] == d.recs;
      assert s == RecBytes(r) + (Body(d.recs) + Trailer(d.trailer) + d.rest);
    case End(t, rest) =>
      assert s == Body([]) + Trailer(t) + rest;
  }

  // ---- the verifier's test ----

  /** perfload's test of a file against its manifest entry. */
  ghost predicate Accepts(f: seq<byte>, records: nat, crc: bv32) {
    && |f| >= 4 && f[..4] == MAGIC
    && var d := ReadAll(f[4..]);
      && d.Some? && |d.value.recs| == records && d.value.trailer == records && |d.value.rest| <= |f|
      && Update(0, f[..|f| - |d.value.rest|]) == crc
  }

  /** A dump of records the reader takes is accepted with the writer's own count and CRC. */
  lemma WrittenIsAccepted(rs: seq<Rec>)
    requires |rs| < Pow256(8) && forall i :: 0 <= i < |rs| ==> Fits(rs[i]) && Small(rs[i])
    ensures Accepts(File(rs), |rs|, Update(0, File(rs)))
    ensures ReadAll(File(rs)[4..]) == Some(Read(rs, |rs|, []))
  {
    hide Trailer;
    hide Body;
    hide Fits;
    hide Small;
    hide ReadAll;
    hide Update;
    ReadBack(rs, |rs|, []);
    var f := File(rs);
    assert f[4..] == Body(rs) + Trailer(|rs|) + [];
    assert f[..|f| - 0] == f;
  }

  /** And what is accepted begins with a whole dump of that many records, with that CRC. */
  lemma AcceptedWasWritten(f: seq<byte>, records: nat, crc: bv32)
    requires Accepts(f, records, crc)
    ensures var d := ReadAll(f[4..]);
      d.Some? && |d.value.recs| == records && File(d.value.recs) <= f && Update(0, File(d.value.recs)) == crc
  {
    hide Trailer;
    hide Body;
    hide Small;
    hide Update;
    ReadWas(f[4..]);
    hide ReadAll;
    var d := ReadAll(f[4..]).value;
    assert f == MAGIC + (Body(d.recs) + Trailer(d.trailer) + d.rest);
    assert f == File(d.recs) + d.rest;
    assert f[..|f| - |d.rest|] == File(d.recs);
  }

  /** perfdump takes a value of up to 1 << 20 bytes; one of 65537 makes a chunk perfload refuses. */
  lemma LongValueIsRefused()
    ensures var r := Rec([0x6B], seq(READ_MAX + 1, i => 0), 0, 0, 0);
      Fits(r) && |r.val| <= 0x10_0000 && ReadAll(File([r])[4..]) == None
      && !Accepts(File([r]), 1, Update(0, File([r])))
  {
    hide ReadAll;
    hide Trailer;
    hide Body;
    hide Update;
    var r := Rec([0x6B], seq(READ_MAX + 1, i => 0), 0, 0, 0);
    Sizes();
    ReadBack([r], 1, []);
    assert !Small([r][0]);
    assert File([r])[4..] == Body([r]) + Trailer(1) + [];
  }

  /** Where everything lies in a chunk: the magic, the records, and the mark and the count at the end. */
  lemma FileLayout(rs: seq<Rec>)
    ensures var f := File(rs);
      && |f| == 4 + |Body(rs)| + 12 && f[..4] == [0x50, 0x43, 0x44, 0x31] && f[4..4 + |Body(rs)|] == Body(rs)
      && f[|f| - 12..|f| - 8] == [255, 255, 255, 255] && f[|f| - 8..] == Le(|rs|, 8)
  {
    EndMark();
    hide Le;
    hide Body;
    var f, t := File(rs), Trailer(|rs|);
    assert f[|f| - 12..] == t;
    assert f[|f| - 12..|f| - 8] == t[..4] && f[|f| - 8..] == t[4..];
  }

  /** And in the records: a head of 25 bytes, the key and the value, then the others. */
  lemma BodyLayout(rs: seq<Rec>)
    requires rs != []
    ensures var b, r := Body(rs), rs[0];
      var kl, vl := |r.key|, |r.val|;
      && |b| >= 25 + kl + vl && b[..25] == Le(kl, 4) + Le(vl, 4) + Le(r.exp, 8) + Le(r.ver, 8) + [r.flags]
      && b[25..25 + kl] == r.key && b[25 + kl..25 + kl + vl] == r.val && b[25 + kl + vl..] == Body(rs[1..])
  {
    var h, r, more := Head(rs[0]), rs[0], Body(rs[1..]);
    hide Le;
    assert Body(rs) == h + r.key + r.val + more;
    hide Head;
    hide Body;
  }

  lemma EndMark()
    ensures Le(END_MARK, 4) == [255, 255, 255, 255]
  {
    assert Le(255, 1) == [255] && Le(0xFFFF, 2) == [255, 255] && Le(0xFF_FFFF, 3) == [255, 255, 255];
  }
}
