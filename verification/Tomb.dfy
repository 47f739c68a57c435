/** The tombstone frame of src/clfwd.c: a deleted key, then fields that were added over time - the
    version, a byte of flags, the origin's number for the delete - each of which an older or shorter
    frame lacks. Written and read with the cursors of src/clcodec.h. */
module Tomb {
  import opened Bytes
  import opened Options

  const HEADER := 4
  const NUM_LEN := 20
  const F_NUMBERED := 2

  datatype Key = Key(col: seq<byte>, key: seq<byte>)
  datatype Num = Num(oid: nat, incarn: nat, seqno: nat)
  datatype Tomb = Tomb(key: Key, ver: nat, flags: nat, num: Num)

  const NoNum := Num(0, 0, 0)

  predicate Numbered(flags: nat) { flags / F_NUMBERED % 2 == 1 }

  /** Every bit but the numbered one is the same. */
  predicate OthersSame(f: nat, g: nat) { f / 4 == g / 4 && f % 2 == g % 2 }

  function Clear(flags: nat): (f: nat)
    ensures !Numbered(f) && f <= flags && OthersSame(f, flags)
  {
    if Numbered(flags) then flags - F_NUMBERED else flags
  }

  /** The flags as sent: the numbering decides that bit, not the caller, and the others are the caller's. */
  function SentFlags(flags: nat, num: Option<Num>): (f: nat)
    ensures Numbered(f) <==> num.Some? && num.value.seqno != 0
    ensures OthersSame(f, flags)
  {
    Clear(flags) + if num.Some? && num.value.seqno != 0 then F_NUMBERED else 0
  }

  function KeyTail(k: Key): (b: seq<byte>)
    ensures |b| == 3 + |k.col| + |k.key|
  {
    [|k.col| % 256] + Le(|k.key|, 2) + k.col + k.key
  }

  function NumBytes(num: Option<Num>): (b: seq<byte>)
    ensures |b| == if num.Some? && num.value.seqno != 0 then NUM_LEN else 0
  {
    if num.Some? && num.value.seqno != 0
    then Le(num.value.oid, 8) + Le(num.value.incarn, 4) + Le(num.value.seqno, 8) else []
  }

  function FlagBytes(f: nat): seq<byte> { if f != 0 then [f % 256] else [] }

  function Built(ty: byte, k: Key, ver: nat, flags: nat, num: Option<Num>): seq<byte> {
    [ty] + KeyTail(k) + Le(ver, 8) + FlagBytes(SentFlags(flags, num)) + NumBytes(num)
  }

  /** What a receiver makes of a frame, however long it is. */
  function Parsed(p: seq<byte>): Option<Tomb> {
    if |p| < HEADER then None
    else
      var cl, kl := p[1], UnLe(p[2..4]);
      var tail := HEADER + cl + kl;
      if tail > |p| then None
      else
        var ver := if |p| >= tail + 8 then UnLe(p[tail..tail + 8]) else 0;
        var f := if |p| >= tail + 9 then p[tail + 8] else 0;
        var f' := if Numbered(f) && |p| < tail + 9 + NUM_LEN then Clear(f) else f;
        var num := if Numbered(f')
                   then Num(UnLe(p[tail + 9..tail + 17]), UnLe(p[tail + 17..tail + 21]), UnLe(p[tail + 21..tail + 29]))
                   else NoNum;
        Some(Tomb(Key(p[HEADER..HEADER + cl], p[HEADER + cl..tail]), ver, f', num))
  }

  /** What the frame's fields can carry. */
  predicate Fits(k: Key, ver: nat, flags: nat, num: Option<Num>) {
    && |k.col| < 256 && |k.key| < 0x1_0000 && ver < Pow256(8) && flags < 256
    && (num.Some? ==> num.value.oid < Pow256(8) && num.value.incarn < Pow256(4) && num.value.seqno < Pow256(8))
  }

  function Size(k: Key): nat { HEADER + |k.col| + |k.key| }

  /** What is left of a tombstone when the frame ends after m bytes: each later field whole or gone,
      and a numbering that is not whole takes its flag with it. */
  function CutTo(k: Key, ver: nat, flags: nat, num: Option<Num>, m: nat): Option<Tomb> {
    var tail, f := Size(k), SentFlags(flags, num);
    if m < tail then None
    else
      var f' := if m < tail + 9 then 0 else if m < tail + 9 + NUM_LEN then Clear(f) else f;
      Some(Tomb(k, if m < tail + 8 then 0 else ver, f', if Numbered(f') && num.Some? then num.value else NoNum))
  }

  lemma HeadBack(b: seq<byte>, ty: byte, k: Key, more: seq<byte>)
    requires |k.col| < 256 && |k.key| < 0x1_0000 && b == [ty] + KeyTail(k) + more
    ensures |b| == Size(k) + |more| && b[1] == |k.col| && UnLe(b[2..4]) == |k.key|
    ensures b[HEADER..HEADER + |k.col|] == k.col && b[HEADER + |k.col|..Size(k)] == k.key && b[Size(k)..] == more
  {
    hide Le;
    hide UnLe;
    assert b == [ty, |k.col|] + Le(|k.key|, 2) + k.col + k.key + more;
    assert b[2..4] == Le(|k.key|, 2);
    assert |k.key| < Pow256(2) by { Sizes(); }
    LeRound(|k.key|, 2);
  }

  /** The fields behind the key. */
  function Fields(ver: nat, flags: nat, num: Option<Num>): seq<byte> {
    Le(ver, 8) + FlagBytes(SentFlags(flags, num)) + NumBytes(num)
  }

  lemma NumBack(num: Num)
    requires num.oid < Pow256(8) && num.incarn < Pow256(4) && num.seqno < Pow256(8) && num.seqno != 0
    ensures var p := NumBytes(Some(num));
      UnLe(p[0..8]) == num.oid && UnLe(p[8..12]) == num.incarn && UnLe(p[12..20]) == num.seqno
  {
    hide Le;
    hide UnLe;
    LeRound(num.oid, 8);
    LeRound(num.incarn, 4);
    LeRound(num.seqno, 8);
    var p := NumBytes(Some(num));
    assert p[0..8] == Le(num.oid, 8) && p[8..12] == Le(num.incarn, 4) && p[12..20] == Le(num.seqno, 8);
  }

  lemma FieldsAre(k: Key, ver: nat, flags: nat, num: Option<Num>)
    requires Fits(k, ver, flags, num)
    ensures var q, f := Fields(ver, flags, num), SentFlags(flags, num);
      && UnLe(q[..8]) == ver && |q| == 8 + (if f == 0 then 0 else 1) + (if Numbered(f) then NUM_LEN else 0)
      && (f != 0 ==> q[8] == f)
      && (Numbered(f) ==> f != 0 && num.Some? && num.value.seqno != 0 && q[9..29] == NumBytes(num))
  {
    hide Le;
    hide UnLe;
    hide NumBytes;
    LeRound(ver, 8);
    assert Fields(ver, flags, num)[..8] == Le(ver, 8);
  }

  /** Part of a slice of a cut frame is part of the field bytes. */
  lemma Slices(b: seq<byte>, m: nat, tail: nat, q: seq<byte>, i: nat, j: nat)
    requires tail <= |b| && b[tail..] == q && i <= j && tail + j <= m <= |b|
    ensures b[..m][tail + i..tail + j] == q[i..j]
  {
    var x, y := b[..m][tail + i..tail + j], q[i..j];
    assert |x| == |y|;
    forall k | 0 <= k < |x| ensures x[k] == y[k] {
      assert x[k] == b[(tail + i) + k] && y[k] == q[i + k] && q[i + k] == b[tail + (i + k)];
    }
  }

  lemma CutFields(b: seq<byte>, m: nat, tail: nat, k: Key, ver: nat, flags: nat, num: Option<Num>)
    requires Fits(k, ver, flags, num) && tail <= m <= |b| && b[tail..] == Fields(ver, flags, num)
    ensures var p, f := b[..m], SentFlags(flags, num);
      && (m >= tail + 8 ==> UnLe(p[tail..tail + 8]) == ver)
      && (m >= tail + 9 ==> p[tail + 8] == f)
      && (m >= tail + 9 + NUM_LEN <==> Numbered(f) && m == tail + 9 + NUM_LEN)
      && (m >= tail + 9 + NUM_LEN ==> num.Some? && num.value == Num(UnLe(p[tail + 9..tail + 17]),
          UnLe(p[tail + 17..tail + 21]), UnLe(p[tail + 21..tail + 29])))
  {
    hide UnLe;
    hide NumBytes;
    hide SentFlags;
    hide Numbered;
    FieldsAre(k, ver, flags, num);
    hide Fields;
    var q := Fields(ver, flags, num);
    if m >= tail + 8 { Slices(b, m, tail, q, 0, 8); }
    if m >= tail + 9 { Slices(b, m, tail, q, 8, 9); }
    if m >= tail + 9 + NUM_LEN { CutNum(b, m, tail, q, num.value); }
  }

  lemma CutNum(b: seq<byte>, m: nat, tail: nat, q: seq<byte>, num: Num)
    requires num.oid < Pow256(8) && num.incarn < Pow256(4) && num.seqno < Pow256(8) && num.seqno != 0
    requires tail <= |b| && b[tail..] == q && tail + 29 <= m <= |b| && q[9..29] == NumBytes(Some(num))
    ensures var p := b[..m];
      num == Num(UnLe(p[tail + 9..tail + 17]), UnLe(p[tail + 17..tail + 21]), UnLe(p[tail + 21..tail + 29]))
  {
    hide UnLe;
    hide NumBytes;
    Slices(b, m, tail, q, 9, 17);
    Slices(b, m, tail, q, 17, 21);
    Slices(b, m, tail, q, 21, 29);
    var n := q[9..29];
    assert n[0..8] == q[9..17] && n[8..12] == q[17..21] && n[12..20] == q[21..29];
    NumBack(num);
  }

  /** Parsing any prefix of a built tombstone, the whole frame included, gives exactly what is left of
      it: the same key or nothing, every other field as it was sent or absent. */
  lemma PrefixParses(ty: byte, k: Key, ver: nat, flags: nat, num: Option<Num>, m: nat)
    requires Fits(k, ver, flags, num) && m <= |Built(ty, k, ver, flags, num)|
    ensures Parsed(Built(ty, k, ver, flags, num)[..m]) == CutTo(k, ver, flags, num, m)
  {
    hide Le;
    hide UnLe;
    hide NumBytes;
    hide SentFlags;
    hide KeyTail;
    hide Numbered;
    hide Clear;
    var b, more := Built(ty, k, ver, flags, num), Fields(ver, flags, num);
    assert b == [ty] + KeyTail(k) + more;
    HeadBack(b, ty, k, more);
    hide Built;
    if m >= HEADER {
      assert b[..m][2..4] == b[2..4];
      if m >= Size(k) {
        assert b[..m][HEADER..HEADER + |k.col|] == k.col && b[..m][HEADER + |k.col|..Size(k)] == k.key;
        CutFields(b, m, Size(k), k, ver, flags, num);
        NotNumbered();
        ClearIs(SentFlags(flags, num));
      }
    }
  }

  lemma NotNumbered()
    ensures !Numbered(0) && Clear(0) == 0
  {
  }

  lemma Whole(ty: byte, k: Key, ver: nat, flags: nat, num: Option<Num>)
    requires Fits(k, ver, flags, num)
    ensures var f := SentFlags(flags, num);
      |Built(ty, k, ver, flags, num)| == Size(k) + 8 + (if f == 0 then 0 else 1) + (if Numbered(f) then NUM_LEN else 0)
  {
    hide Le;
    hide UnLe;
    hide NumBytes;
    hide SentFlags;
    hide KeyTail;
    hide Numbered;
    FieldsAre(k, ver, flags, num);
    assert Built(ty, k, ver, flags, num) == [ty] + KeyTail(k) + Fields(ver, flags, num);
  }

  /** A whole tombstone reads back: its key, version, flags and number. */
  lemma BuiltParses(ty: byte, k: Key, ver: nat, flags: nat, num: Option<Num>)
    requires Fits(k, ver, flags, num)
    ensures var n := if num.Some? && num.value.seqno != 0 then num.value else NoNum;
      && Parsed(Built(ty, k, ver, flags, num)) == Some(Tomb(k, ver, SentFlags(flags, num), n))
      && var f := Parsed(Built(ty, k, ver, flags, num)).value.flags;
         f / 4 == flags / 4 && f % 2 == flags % 2 && (f / 2 % 2 == 1 <==> num.Some? && num.value.seqno != 0)
  {
    hide Built;
    hide Parsed;
    hide SentFlags;
    hide Numbered;
    hide Clear;
    hide Fits;
    var b := Built(ty, k, ver, flags, num);
    PrefixParses(ty, k, ver, flags, num, |b|);
    assert b[..|b|] == b;
    Whole(ty, k, ver, flags, num);
    NotNumbered();
    ClearIs(SentFlags(flags, num));
    NumberedIs(SentFlags(flags, num));
  }

  lemma NumberedIs(f: nat)
    ensures Numbered(f) <==> f / 2 % 2 == 1
  {
  }

  lemma ClearIs(f: nat)
    ensures !Numbered(f) ==> Clear(f) == f
  {
  }

  /** The flags a receiver reads, bit by bit, from a frame cut anywhere: none when the cut is before their
      byte; otherwise the caller's, but for the numbered bit, which is set exactly when a number was sent
      and came through whole. */
  lemma FlagsBack(ty: byte, k: Key, ver: nat, flags: nat, num: Option<Num>, m: nat)
    requires Fits(k, ver, flags, num) && Size(k) <= m <= |Built(ty, k, ver, flags, num)|
    ensures var t := Parsed(Built(ty, k, ver, flags, num)[..m]);
      && t.Some?
      && (m < Size(k) + 9 ==> t.value.flags == 0)
      && (m >= Size(k) + 9 ==>
           && t.value.flags / 4 == flags / 4 && t.value.flags % 2 == flags % 2
           && (t.value.flags / 2 % 2 == 1 <==> num.Some? && num.value.seqno != 0 && m >= Size(k) + 9 + NUM_LEN))
  {
    hide Built;
    hide Parsed;
    hide SentFlags;
    hide Clear;
    hide Fits;
    PrefixParses(ty, k, ver, flags, num, m);
  }

  /** The whole frame carries the flags' byte exactly when there is something to say in it: a number, or a
      bit of the caller's other than the numbered one. */
  lemma FlagsSent(ty: byte, k: Key, ver: nat, flags: nat, num: Option<Num>)
    requires Fits(k, ver, flags, num)
    ensures var b := Built(ty, k, ver, flags, num);
      var numbered := num.Some? && num.value.seqno != 0;
      |b| == Size(k) + 8 + (if numbered || flags / 4 != 0 || flags % 2 != 0 then 1 else 0) + if numbered then NUM_LEN else 0
  {
    hide Built;
    hide SentFlags;
    hide Fits;
    Whole(ty, k, ver, flags, num);
    var f := SentFlags(flags, num);
    assert f == 0 <==> f / 4 == 0 && f % 2 == 0 && f / 2 % 2 == 0;
  }

  /** A frame that has every field is read the same whatever comes behind. */
  lemma MoreIsIgnored(p: seq<byte>, more: seq<byte>)
    requires |p| >= HEADER && |p| >= HEADER + p[1] + UnLe(p[2..4]) + 9 + NUM_LEN
    ensures Parsed(p + more) == Parsed(p) && Parsed(p).Some?
  {
    hide UnLe;
    var b, tail := p + more, HEADER + p[1] + UnLe(p[2..4]);
    assert b[2..4] == p[2..4] && b[tail..tail + 8] == p[tail..tail + 8] && b[tail + 9..tail + 17] == p[tail + 9..tail + 17];
    assert b[tail + 17..tail + 21] == p[tail + 17..tail + 21] && b[tail + 21..tail + 29] == p[tail + 21..tail + 29];
    assert b[HEADER..HEADER + p[1]] == p[HEADER..HEADER + p[1]] && b[HEADER + p[1]..tail] == p[HEADER + p[1]..tail];
  }
}
