/** The cursors of src/clcodec.h, and the tombstone builder and parser of src/clfwd.c that use them. */
module TombCode {
  import opened Bytes
  import opened Options
  import opened Tomb

  /** Writes in order into a bounded buffer; the first write without room latches ok. */
  class WriteCursor {
    const buf: array<byte>
    const end: nat
    var p: nat
    var ok: bool

    ghost predicate Valid()
      reads this
    {
      p <= end <= buf.Length
    }

    constructor (buf: array<byte>, cap: nat)
      requires cap <= buf.Length
      ensures Valid() && this.buf == buf && end == cap && p == 0 && ok
    {
      this.buf, this.end, p, ok := buf, cap, 0, true;
    }

    /** Appends src if it fits; otherwise changes no byte and refuses every later call. */
    method Put(src: seq<byte>)
      requires Valid()
      modifies this, buf
      ensures Valid() && (ok <==> old(ok) && old(p) + |src| <= end)
      ensures ok ==> p == old(p) + |src| && buf[..p] == old(buf[..p]) + src
      ensures !ok ==> p == old(p) && buf[..] == old(buf[..])
    {
      if !ok || end - p < |src| {
        ok := false;
        return;
      }
      ghost var was := buf[..p];
      for i := 0 to |src|
        invariant buf[..p + i] == was + src[..i]
        modifies buf
      {
        buf[p + i] := src[i];
        assert buf[..p + i + 1] == buf[..p + i] + [src[i]] && src[..i + 1] == src[..i] + [src[i]];
      }
      p := p + |src|;
    }
  }

  /** The lengths, the collection and the key behind what was written, if there is room for all of it;
      otherwise the cursor has failed. */
  method PutKey(c: WriteCursor, k: Key)
    requires c.Valid()
    modifies c, c.buf
    ensures c.Valid() && (c.ok <==> old(c.ok) && old(c.p) + |KeyTail(k)| <= c.end)
    ensures c.ok ==> c.p == old(c.p) + |KeyTail(k)| && c.buf[..c.p] == old(c.buf[..c.p]) + KeyTail(k)
  {
    hide Le;
    ghost var was := c.buf[..c.p];
    c.Put([|k.col| % 256]);
    c.Put(Le(|k.key|, 2));
    c.Put(k.col);
    c.Put(k.key);
    assert was + [|k.col| % 256] + Le(|k.key|, 2) + k.col + k.key == was + KeyTail(k);
  }

  /** Build a tombstone: the frame's length. */
  method Build(msg: array<byte>, ty: byte, k: Key, ver: nat, flags: nat, num: Option<Num>) returns (len: nat)
    requires |Built(ty, k, ver, flags, num)| <= msg.Length
    modifies msg
    ensures len == |Built(ty, k, ver, flags, num)| && msg[..len] == Built(ty, k, ver, flags, num)
  {
    hide Le;
    hide KeyTail;
    hide NumBytes;
    hide SentFlags;
    var f := SentFlags(flags, num);
    len := 1 + 3 + |k.col| + |k.key| + 8 + (if f != 0 then 1 else 0) + (if Numbered(f) then NUM_LEN else 0);
    assert len == |Built(ty, k, ver, flags, num)| by { NumberedFlag(f); }
    var c := new WriteCursor(msg, len);
    c.Put([ty]);
    PutKey(c, k);
    c.Put(Le(ver, 8));
    ghost var was := c.buf[..c.p];
    assert was == [ty] + KeyTail(k) + Le(ver, 8);
    if f != 0 { c.Put([f % 256]); }
    assert c.buf[..c.p] == was + FlagBytes(f);
    var n := NumBytes(num);
    if Numbered(f) { c.Put(n); }
    assert c.buf[..c.p] == was + FlagBytes(f) + n;
    assert c.ok;
  }

  lemma NumberedFlag(f: nat)
    ensures Numbered(f) ==> f != 0
  {
  }

  /** Reads in order; p never passes the end. */
  class ReadCursor {
    const data: seq<byte>
    var p: nat

    constructor (data: seq<byte>)
      ensures this.data == data && p == 0
    {
      this.data, p := data, 0;
    }

    predicate Fits(n: nat)
      reads this
    {
      p + n <= |data|
    }

    method Skip(n: nat) returns (ok: bool)
      modifies this
      ensures ok == old(Fits(n)) && p == if ok then old(p) + n else old(p)
    {
      ok := Fits(n);
      if ok { p := p + n; }
    }

    /** The next n bytes as a number, least significant first. */
    method Number(n: nat) returns (v: nat)
      requires Fits(n)
      modifies this
      ensures v == UnLe(data[old(p)..old(p) + n]) && p == old(p) + n
    {
      v := UnLe(data[p..p + n]);
      p := p + n;
    }
  }

  lemma OneByte(b: byte)
    ensures UnLe([b]) == b
  {
    assert [b][1..] == [];
  }

  /** Parse a tombstone of any length. */
  method Parse(pt: seq<byte>) returns (r: Option<Tomb>)
    ensures r == Parsed(pt)
  {
    hide UnLe;
    hide Numbered;
    hide Clear;
    var c := new ReadCursor(pt);
    var ok := c.Skip(1);
    if !ok { return None; }
    if !c.Fits(3) { return None; }
    var cl := c.Number(1);
    var kl := c.Number(2);
    assert cl == pt[1] by { assert pt[1..2] == [pt[1]]; OneByte(pt[1]); }
    if HEADER + cl + kl > |pt| { return None; }
    var tail := HEADER + cl + kl;
    var ver := if |pt| >= tail + 8 then UnLe(pt[tail..tail + 8]) else 0;
    var f: nat := 0;
    if |pt| >= tail + 9 { f := pt[tail + 8]; }
    NotNumbered();
    if Numbered(f) && |pt| < tail + 9 + NUM_LEN { f := Clear(f); }
    var num := NoNum;
    if Numbered(f) {
      num := Num(UnLe(pt[tail + 9..tail + 17]), UnLe(pt[tail + 17..tail + 21]), UnLe(pt[tail + 21..tail + 29]));
    }
    r := Some(Tomb(Key(pt[HEADER..HEADER + cl], pt[HEADER + cl..tail]), ver, f, num));
  }
}
