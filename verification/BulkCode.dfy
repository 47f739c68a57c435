/** The code of src/clbulk.c: cutting a stream into sealed records, reading it back into a caller's
    buffer through a stash, and the queue of batches between two threads. */
module BulkCode {
  import opened Bytes
  import opened Options
  import opened Bulk

  class Sender {
    const enc: Encrypt
    var nonce: nat
    var wire: seq<byte>        // the socket: what it has accepted

    constructor (enc: Encrypt)
      ensures this.enc == enc && nonce == 0 && wire == []
    {
      this.enc := enc;
      nonce, wire := 0, [];
    }

    static lemma NextChunk(enc: Encrypt, n: nat, p: seq<byte>, c: nat)
      requires p != [] && c == if |p| > MAX_PT then MAX_PT else |p|
      ensures Records(enc, n, Chunks(p)) == Record(enc, n, p[..c]) + Records(enc, n + 1, Chunks(p[c..]))
      ensures |Chunks(p)| == 1 + |Chunks(p[c..])|
    {
      hide Record;
      assert p[..|p|] == p;
      assert Chunks(p)[1..] == Chunks(p[c..]);
    }

    /** Seals and writes record by record; `room` is how many bytes the socket takes before it fails. */
    method SendStream(p: seq<byte>, room: nat) returns (rc: int)
      modifies this
      ensures var all := Records(enc, old(nonce), Chunks(p));
        && (rc == 0 || rc == -1) && (rc == 0 <==> |all| <= room)
        && wire == old(wire) + (if rc == 0 then all else all[..room])
        && (rc == 0 ==> nonce == old(nonce) + |Chunks(p)|)
    {
      hide Chunks;
      hide Records;
      var q, left: nat := p, room;
      ghost var was, all, end := wire, Records(enc, nonce, Chunks(p)), nonce + |Chunks(p)|;
      while q != []
        invariant wire + Records(enc, nonce, Chunks(q)) == was + all && nonce + |Chunks(q)| == end
        invariant |wire| + left == |was| + room
        decreases |q|
      {
        var c := if |q| > MAX_PT then MAX_PT else |q|;
        var ct := enc(nonce, q[..c]);
        NextChunk(enc, nonce, q, c);
        var rec := Le(|ct|, 2) + ct;
        Assoc(wire, rec, Records(enc, nonce + 1, Chunks(q[c..])));
        if left < |rec| {
          Cut(wire, rec, Records(enc, nonce + 1, Chunks(q[c..])), was, all, left);
          wire := wire + rec[..left];
          return -1;
        }
        wire := wire + rec;
        left := left - |rec|;
        nonce := nonce + 1;
        q := q[c..];
      }
      NoChunks(enc, nonce);
      assert wire + [] == wire;
      rc := 0;
    }

    static lemma Cut(wire: seq<byte>, rec: seq<byte>, later: seq<byte>, was: seq<byte>, all: seq<byte>, left: nat)
      requires (wire + rec) + later == was + all && left < |rec| && |was| <= |wire| + left
      ensures |wire| + left - |was| < |all| && wire + rec[..left] == was + all[..|wire| + left - |was|]
    {
      var n := |wire| + left;
      assert wire + rec[..left] == ((wire + rec) + later)[..n] && was + all[..n - |was|] == (was + all)[..n];
    }

    static lemma NoChunks(enc: Encrypt, n: nat)
      ensures Chunks([]) == [] && Records(enc, n, Chunks([])) == []
    {
    }
  }

  /** What opening a message can give: the message without its tag. */
  ghost predicate Shrinks(dec: Decrypt) {
    forall n: nat, c: seq<byte> :: dec(n, c).Some? ==> |dec(n, c).value| + TAG_LEN == |c|
  }

  /** The rest of a receive, behind what has been copied out already. */
  ghost function After(done: seq<byte>, r: Option<Taken>): Option<Taken> {
    match r
    case None => None
    case Some(t) => Some(Taken(done + t.out, t.end))
  }

  class Receiver {
    const dec: Decrypt
    const stash: array<byte>
    var slen: nat
    var nonce: nat
    var incoming: seq<byte>    // the socket: arrived and not yet read

    ghost predicate Valid()
      reads this
    {
      slen <= stash.Length
    }

    ghost function View(): End
      reads this, stash
      requires Valid()
    {
      End(nonce, stash[..slen], incoming)
    }

    constructor (dec: Decrypt, scap: nat)
      ensures this.dec == dec && Valid() && stash.Length == scap && View() == End(0, [], [])
    {
      this.dec := dec;
      stash := new byte[scap];
      slen, nonce, incoming := 0, 0, [];
    }

    /** The first `take` bytes of the stash to the caller's buffer; the others move down. */
    method Unstash(out: array<byte>, got: nat, take: nat)
      requires Valid() && out != stash && take <= slen && got + take <= out.Length
      modifies this`slen, stash, out
      ensures Valid() && stash[..slen] == old(stash[..slen])[take..]
      ensures out[..got + take] == old(out[..got]) + old(stash[..slen])[..take]
    {
      ghost var was, head := stash[..slen], out[..got];
      for i := 0 to take
        invariant out[..got + i] == head + was[..i]
        modifies out
      {
        out[got + i] := stash[i];
        assert out[..got + i + 1] == out[..got + i] + [was[i]];
        assert was[..i + 1] == was[..i] + [was[i]];
      }
      label moved:
      for i := 0 to slen - take
        invariant stash[..i] == was[take..take + i]
        invariant forall k :: take + i <= k < slen ==> stash[k] == was[k]
        modifies stash
      {
        assert was[take..take + i + 1] == was[take..take + i] + [was[take + i]];
        stash[i] := stash[take + i];
        assert stash[..i + 1] == stash[..i] + [was[take + i]];
      }
      slen := slen - take;
    }

    /** The next record into the empty stash. */
    method Refill() returns (rc: int)
      requires Valid() && Shrinks(dec) && slen == 0
      modifies this, stash
      ensures Valid()
      ensures var o := Open(dec, old(nonce), old(incoming), 0, stash.Length);
        && (rc == 0 <==> o.Some?)
        && (rc == 0 ==> View() == End(old(nonce) + 1, o.value.plain, o.value.rest))
    {
      hide UnLe;
      rc := -1;
      if |incoming| < 2 { return; }
      var cl := UnLe(incoming[..2]);
      if cl < TAG_LEN || cl > MAX_MSG || slen + cl > stash.Length || |incoming| < 2 + cl { return; }
      var plain := dec(nonce, incoming[2..2 + cl]);
      if plain.None? { return; }
      var pl := plain.value;
      for i := 0 to |pl|
        invariant stash[..i] == pl[..i]
        modifies stash
      {
        stash[i] := pl[i];
        assert stash[..i + 1] == stash[..i] + [pl[i]] && pl[..i + 1] == pl[..i] + [pl[i]];
      }
      slen := |pl|;
      nonce := nonce + 1;
      incoming := incoming[2 + cl..];
      rc := 0;
    }

    /** Exactly `want` bytes, or -1. */
    method RecvExact(out: array<byte>, want: nat) returns (rc: int)
      requires Valid() && Shrinks(dec) && out != stash && want <= out.Length
      modifies this, stash, out
      ensures Valid()
      ensures var r := Receive(dec, old(View()), want, stash.Length);
        && (rc == 0 <==> r.Some?)
        && (rc == 0 ==> out[..want] == r.value.out && View() == r.value.end)
    {
      hide Shrinks;
      hide Open;
      ghost var r := Receive(dec, View(), want, stash.Length);
      var got: nat := 0;
      assert r == After([], r) by { assert r.Some? ==> [] + r.value.out == r.value.out; }
      hide Receive;
      hide After;
      while true
        invariant got <= want && Valid()
        invariant r == After(out[..got], Receive(dec, View(), want - got, stash.Length))
        decreases |incoming|
      {
        ghost var e := View();
        var take := if slen < want - got then slen else want - got;
        ghost var done := out[..got];
        Unstash(out, got, take);
        got := got + take;
        if got == want {
          Ends(dec, e, take, stash.Length, done);
          assert r == Some(Taken(out[..want], View()));
          return 0;
        }
        assert e.stash[..take] == e.stash && out[..got] == done + e.stash;
        Goes(dec, e, want - got + take, stash.Length, done);
        rc := Refill();
        if rc != 0 { return; }
        assert out[..got] == done + e.stash;
      }
    }

    static lemma Ends(dec: Decrypt, e: End, want: nat, scap: nat, done: seq<byte>)
      requires want <= |e.stash|
      ensures After(done, Receive(dec, e, want, scap)) == Some(Taken(done + e.stash[..want], e.(stash := e.stash[want..])))
    {
    }

    static lemma Goes(dec: Decrypt, e: End, want: nat, scap: nat, done: seq<byte>)
      requires want > |e.stash|
      ensures var o := Open(dec, e.nonce, e.incoming, 0, scap);
        After(done, Receive(dec, e, want, scap)) ==
        if o.None? then None
        else After(done + e.stash, Receive(dec, End(e.nonce + 1, o.value.plain, o.value.rest), want - |e.stash|, scap))
    {
      hide Open;
      var o := Open(dec, e.nonce, e.incoming, 0, scap);
      if o.Some? {
        var r := Receive(dec, End(e.nonce + 1, o.value.plain, o.value.rest), want - |e.stash|, scap);
        if r.Some? { Assoc(done, e.stash, r.value.out); }
      }
    }
  }

  // ---- the batch queue ----

  const SLOTS := 4

  /** Four slots used round robin; `current` is the batch the bulk thread holds. */
  class Batches<Batch> {
    const q: array<Batch>
    var head: nat
    var n: nat
    var current: Option<Batch>

    ghost predicate Valid()
      reads this
    {
      q.Length == SLOTS && head < SLOTS && n <= SLOTS
    }

    ghost function Contents(): (s: seq<Batch>)
      reads this, q
      requires Valid()
    {
      seq(n, i requires 0 <= i < n reads this, q requires Valid() => q[(head + i) % SLOTS])
    }

    constructor (none: Batch)
      ensures Valid() && Contents() == [] && current == None
    {
      q := new Batch[SLOTS](i => none);
      head, n, current := 0, 0, None;
    }

    /** Behind the others, unless every slot is taken. */
    method Offer(b: Batch) returns (queued: bool)
      requires Valid()
      modifies this`n, q
      ensures Valid() && (queued <==> old(n) < SLOTS)
      ensures Contents() == if queued then old(Contents()) + [b] else old(Contents())
    {
      queued := n < SLOTS;
      if queued {
        ghost var was := Contents();
        q[(head + n) % SLOTS] := b;
        n := n + 1;
        assert forall i :: 0 <= i < n - 1 ==> Contents()[i] == was[i];
      }
    }

    /** The oldest, into the bulk thread's hand. */
    method TakeOldest() returns (r: Option<Batch>)
      requires Valid()
      modifies this
      ensures Valid() && r == current
      ensures r == if old(Contents()) == [] then None else Some(old(Contents())[0])
      ensures Contents() == if old(Contents()) == [] then [] else old(Contents())[1..]
    {
      ghost var was := Contents();
      if n > 0 {
        assert was[0] == q[head];
        current := Some(q[head]);
        head := (head + 1) % SLOTS;
        n := n - 1;
        assert forall i :: 0 <= i < n ==> Contents()[i] == was[i + 1];
      } else {
        current := None;
      }
      r := current;
    }

    method Done()
      requires Valid()
      modifies this`current
      ensures Valid() && current == None && Contents() == old(Contents())
    {
      current := None;
    }
  }
}
