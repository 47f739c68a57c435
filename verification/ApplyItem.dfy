/** An item of an apply ring (src/clapply.c): the header the producer writes in front of a record,
    and the record the consumer reads back from it. Header padding holds whatever was there. */
module ApplyItem {
  import opened Bytes

  const HDR: nat := 48     // sizeof(struct hdr)

  type Item = seq<byte>

  /** `grp`: the group's address; 0 for none. */
  datatype Rec = Rec(col: seq<byte>, key: seq<byte>, val: seq<byte>, ttl: nat, ver: nat, grp: nat, passive: nat, flags: byte)

  function Need(r: Rec): nat { HDR + |r.col| + |r.key| + |r.val| }

  /** What the header's fields can hold. */
  predicate Fits(r: Rec) {
    Need(r) < Pow256(4) && r.ttl < Pow256(4) && r.ver < Pow256(8) && r.grp < Pow256(8) && r.passive < Pow256(4)
  }

  /** The fields of the header, with its two gaps. */
  function Header(r: Rec, gap4: seq<byte>, gap3: seq<byte>): (h: seq<byte>)
    requires |gap4| == 4 && |gap3| == 3
    ensures |h| == HDR
  {
    Le(Need(r), 4) + Le(|r.col|, 4) + Le(|r.key|, 4) + Le(|r.val|, 4) + Le(r.ttl, 4) + gap4
    + Le(r.ver, 8) + Le(r.grp, 8) + Le(r.passive, 4) + [r.flags] + gap3
  }

  function ItemOf(r: Rec, gap4: seq<byte>, gap3: seq<byte>): Item
    requires |gap4| == 4 && |gap3| == 3
  {
    Header(r, gap4, gap3) + r.col + r.key + r.val
  }

  /** What the release adds to head: from the lengths of the parts, not from the first field. */
  function DoneLen(h: seq<byte>): nat
    requires |h| >= HDR
  {
    HDR + UnLe(h[4..8]) + UnLe(h[8..12]) + UnLe(h[12..16])
  }

  /** Both of the lengths in the header are the item's. */
  predicate IsItem(it: Item) { |it| >= HDR && UnLe(it[..4]) == |it| == DoneLen(it[..HDR]) }

  /** The record as the consumer finds it. */
  function RecordOf(it: Item): Rec
    requires IsItem(it)
  {
    var c, k := HDR + UnLe(it[..HDR][4..8]), HDR + UnLe(it[..HDR][4..8]) + UnLe(it[..HDR][8..12]);
    Rec(it[HDR..c], it[c..k], it[k..], UnLe(it[16..20]), UnLe(it[24..32]), UnLe(it[32..40]), UnLe(it[40..44]), it[44])
  }

  lemma HeaderFields(r: Rec, gap4: seq<byte>, gap3: seq<byte>)
    requires Fits(r) && |gap4| == 4 && |gap3| == 3
    ensures var h := Header(r, gap4, gap3);
      && UnLe(h[..4]) == Need(r) && UnLe(h[4..8]) == |r.col| && UnLe(h[8..12]) == |r.key| && UnLe(h[12..16]) == |r.val|
      && UnLe(h[16..20]) == r.ttl && UnLe(h[24..32]) == r.ver && UnLe(h[32..40]) == r.grp
      && UnLe(h[40..44]) == r.passive && h[44] == r.flags
  {
    hide UnLe;
    hide Le;
    hide Pow256;
    LeRound(Need(r), 4);
    LeRound(|r.col|, 4);
    LeRound(|r.key|, 4);
    LeRound(|r.val|, 4);
    LeRound(r.ttl, 4);
    LeRound(r.ver, 8);
    LeRound(r.grp, 8);
    LeRound(r.passive, 4);
    var h := Header(r, gap4, gap3);
    assert h[..4] == Le(Need(r), 4) && h[4..8] == Le(|r.col|, 4) && h[8..12] == Le(|r.key|, 4);
    assert h[12..16] == Le(|r.val|, 4) && h[16..20] == Le(r.ttl, 4);
    assert h[24..32] == Le(r.ver, 8) && h[32..40] == Le(r.grp, 8) && h[40..44] == Le(r.passive, 4);
  }

  /** Any part of the header is the same in the whole item. */
  lemma InItem(h: seq<byte>, rest: seq<byte>, i: nat, j: nat)
    requires i <= j <= |h|
    ensures (h + rest)[i..j] == h[i..j]
  {
  }

  /** The three parts behind the header. */
  lemma Parts(h: seq<byte>, col: seq<byte>, key: seq<byte>, val: seq<byte>)
    ensures var it, c := h + col + key + val, |h| + |col|;
      && it == h + (col + key + val) && it[..|h|] == h
      && it[|h|..c] == col && it[c..c + |key|] == key && it[c + |key|..] == val
  {
  }

  /** What is taken out of a ring is what was put in: every field of the record, whatever lay in the
      header's gaps. */
  lemma RecordBack(r: Rec, gap4: seq<byte>, gap3: seq<byte>)
    requires Fits(r) && |gap4| == 4 && |gap3| == 3
    ensures var it := ItemOf(r, gap4, gap3); |it| == Need(r) && IsItem(it) && RecordOf(it) == r
  {
    hide UnLe;
    hide Fits;
    HeaderFields(r, gap4, gap3);
    var h, rest := Header(r, gap4, gap3), r.col + r.key + r.val;
    hide Header;
    Parts(h, r.col, r.key, r.val);
    InItem(h, rest, 0, 4);
    InItem(h, rest, 16, 20);
    InItem(h, rest, 24, 32);
    InItem(h, rest, 32, 40);
    InItem(h, rest, 40, 44);
    InItem(h, rest, 44, 45);
    var it := ItemOf(r, gap4, gap3);
    assert it[..4] == it[0..4] && h[..4] == h[0..4] && it[44..45] == [it[44]] && h[44..45] == [h[44]];
  }
}
