/** The bulk plane's record stream and batch queue (src/clbulk.c): a byte stream cut into sealed
    records, read back in other lengths than it was written in. The Noise transport enters as a
    pair of functions of the message counter; the one law used of it is Sealing. */
module Bulk {
  import opened Bytes
  import opened Options

  const MAX_MSG := 65535
  const TAG_LEN := 16
  const MAX_PT := MAX_MSG - TAG_LEN

  type Encrypt = (nat, seq<byte>) -> seq<byte>
  type Decrypt = (nat, seq<byte>) -> Option<seq<byte>>

  /** Opening what was sealed under the same counter gives it back; a tag is added. */
  ghost predicate Sealing(enc: Encrypt, dec: Decrypt) {
    forall n: nat, p: seq<byte> :: |p| <= MAX_PT ==> |enc(n, p)| == |p| + TAG_LEN && dec(n, enc(n, p)) == Some(p)
  }

  function Record(enc: Encrypt, n: nat, p: seq<byte>): seq<byte> {
    Le(|enc(n, p)|, 2) + enc(n, p)
  }

  /** Records sealed under the counters n, n + 1, ... */
  function Records(enc: Encrypt, n: nat, ps: seq<seq<byte>>): seq<byte>
    decreases |ps|
  {
    if ps == [] then [] else Record(enc, n, ps[0]) + Records(enc, n + 1, ps[1..])
  }

  function Flat(ps: seq<seq<byte>>): seq<byte> {
    if ps == [] then [] else ps[0] + Flat(ps[1..])
  }

  predicate Chunked(ps: seq<seq<byte>>) { forall i :: 0 <= i < |ps| ==> 1 <= |ps[i]| <= MAX_PT }

  /** As the sender cuts it: full records and one for the rest. */
  function Chunks(p: seq<byte>): (ps: seq<seq<byte>>)
    ensures Flat(ps) == p && Chunked(ps)
    ensures forall i :: 0 <= i < |ps| - 1 ==> |ps[i]| == MAX_PT
    decreases |p|
  {
    if p == [] then []
    else if |p| <= MAX_PT then
      assert Flat([p]) == p + Flat([]);
      [p]
    else
      assert p == p[..MAX_PT] + p[MAX_PT..];
      [p[..MAX_PT]] + Chunks(p[MAX_PT..])
  }

  // ---- the receiving end ----

  /** What it holds: its counter, the bytes opened and not asked for, the bytes arrived. */
  datatype End = End(nonce: nat, stash: seq<byte>, incoming: seq<byte>)

  datatype Opened = Opened(plain: seq<byte>, rest: seq<byte>)
  datatype Taken = Taken(out: seq<byte>, end: End)

  /** The next record, when all of it is there and it fits the stash. */
  function Open(dec: Decrypt, nonce: nat, incoming: seq<byte>, slen: nat, scap: nat): (r: Option<Opened>)
    ensures r.Some? ==> |r.value.rest| < |incoming|
  {
    if |incoming| < 2 then None
    else
      var cl := UnLe(incoming[..2]);
      if cl < TAG_LEN || cl > MAX_MSG || slen + cl > scap || |incoming| < 2 + cl then None
      else match dec(nonce, incoming[2..2 + cl])
        case None => None
        case Some(p) => Some(Opened(p, incoming[2 + cl..]))
  }

  /** Exactly `want` bytes: from the stash first, then record by record. */
  function Receive(dec: Decrypt, e: End, want: nat, scap: nat): Option<Taken>
    decreases |e.incoming|
  {
    if want <= |e.stash| then Some(Taken(e.stash[..want], e.(stash := e.stash[want..])))
    else match Open(dec, e.nonce, e.incoming, 0, scap)
      case None => None
      case Some(o) =>
        match Receive(dec, End(e.nonce + 1, o.plain, o.rest), want - |e.stash|, scap)
        case None => None
        case Some(t) => Some(Taken(e.stash + t.out, t.end))
  }

  lemma Sealed(enc: Encrypt, dec: Decrypt, n: nat, p: seq<byte>)
    requires Sealing(enc, dec) && |p| <= MAX_PT
    ensures |enc(n, p)| == |p| + TAG_LEN && dec(n, enc(n, p)) == Some(p)
    ensures UnLe(Le(|enc(n, p)|, 2)) == |enc(n, p)|
  {
    Sizes();
    LeRound(|enc(n, p)|, 2);
  }

  lemma OpenWhole(enc: Encrypt, dec: Decrypt, n: nat, p: seq<byte>, rest: seq<byte>, scap: nat)
    requires Sealing(enc, dec) && |p| <= MAX_PT && scap >= MAX_MSG
    ensures Open(dec, n, Record(enc, n, p) + rest, 0, scap) == Some(Opened(p, rest))
  {
    hide UnLe;
    hide Le;
    Sealed(enc, dec, n, p);
    var all := Record(enc, n, p) + rest;
    var ct := enc(n, p);
    assert all[..2] == Le(|ct|, 2);
    assert all[2..2 + |ct|] == ct && all[2 + |ct|..] == rest;
  }

  lemma OpenPart(enc: Encrypt, dec: Decrypt, n: nat, p: seq<byte>, part: seq<byte>, scap: nat)
    requires Sealing(enc, dec) && |p| <= MAX_PT && part < Record(enc, n, p)
    ensures Open(dec, n, part, 0, scap) == None
  {
    hide UnLe;
    hide Le;
    Sealed(enc, dec, n, p);
    if |part| >= 2 { assert part[..2] == Le(|enc(n, p)|, 2); }
  }

  /** With the whole records `ps` arrived and no more than part of the next: the bytes asked for are
      exactly the next bytes of the stream, they are given if and only if enough of it is there, and
      what is not given is kept - in the stash or unread. */
  ghost predicate Given(enc: Encrypt, r: Option<Taken>, e: End, ps: seq<seq<byte>>, part: seq<byte>, want: nat) {
    var stream := e.stash + Flat(ps);
    if want > |stream| then r == None
    else
      && r.Some? && r.value.out == stream[..want]
      && var k := r.value.end.nonce - e.nonce;
        0 <= k <= |ps| && Kept(enc, r.value.end, ps[k..], part, stream[want..])
  }

  ghost predicate Kept(enc: Encrypt, e: End, ps: seq<seq<byte>>, part: seq<byte>, stream: seq<byte>) {
    e.incoming == Records(enc, e.nonce, ps) + part && e.stash + Flat(ps) == stream
  }

  lemma {:induction false} ReceiveGives(enc: Encrypt, dec: Decrypt, e: End, ps: seq<seq<byte>>, next: seq<byte>,
                                        part: seq<byte>, want: nat, scap: nat)
    requires Sealing(enc, dec) && Chunked(ps) && |next| <= MAX_PT && scap >= MAX_MSG
    requires part < Record(enc, e.nonce + |ps|, next)
    requires e.incoming == Records(enc, e.nonce, ps) + part
    ensures Given(enc, Receive(dec, e, want, scap), e, ps, part, want)
    decreases |ps|
  {
    hide Sealing;
    hide Open;
    hide Record;
    var stream := e.stash + Flat(ps);
    if want <= |e.stash| {
      assert ps[0..] == ps;
      assert e.stash[want..] + Flat(ps) == stream[want..];
      assert e.stash[..want] == stream[..want];
    } else if ps == [] {
      assert e.incoming == part;
      OpenPart(enc, dec, e.nonce, next, part, scap);
    } else {
      var rest := Records(enc, e.nonce + 1, ps[1..]) + part;
      assert e.incoming == Record(enc, e.nonce, ps[0]) + rest;
      OpenWhole(enc, dec, e.nonce, ps[0], rest, scap);
      var e', want' := End(e.nonce + 1, ps[0], rest), want - |e.stash|;
      ReceiveGives(enc, dec, e', ps[1..], next, part, want', scap);
      OneRecordOn(enc, e, e', ps, part, want, Receive(dec, e', want', scap));
    }
  }

  lemma OneRecordOn(enc: Encrypt, e: End, e': End, ps: seq<seq<byte>>, part: seq<byte>, want: nat, r: Option<Taken>)
    requires ps != [] && want > |e.stash| && e'.nonce == e.nonce + 1 && e'.stash == ps[0]
    requires Given(enc, r, e', ps[1..], part, want - |e.stash|)
    ensures Given(enc, if r.Some? then Some(Taken(e.stash + r.value.out, r.value.end)) else None, e, ps, part, want)
  {
    var inner, stream := e'.stash + Flat(ps[1..]), e.stash + Flat(ps);
    assert inner == Flat(ps);
    hide Flat;
    hide Kept;
    var want' := want - |e.stash|;
    if want <= |stream| {
      Shifted(e.stash, inner, want);
      var k := r.value.end.nonce - e'.nonce;
      assert ps[1..][k..] == ps[k + 1..];
    }
  }

  lemma Shifted(a: seq<byte>, b: seq<byte>, want: nat)
    requires |a| <= want <= |a + b|
    ensures a + b[..want - |a|] == (a + b)[..want] && b[want - |a|..] == (a + b)[want..]
  {
  }

  // ---- sends and receives in any order ----

  lemma Assoc(a: seq<byte>, b: seq<byte>, c: seq<byte>)
    ensures (a + b) + c == a + (b + c)
  {
  }

  lemma {:induction false} FlatConcat(a: seq<seq<byte>>, b: seq<seq<byte>>)
    ensures Flat(a + b) == Flat(a) + Flat(b)
  {
    if a == [] {
      assert a + b == b;
    } else {
      FlatConcat(a[1..], b);
      assert (a + b)[1..] == a[1..] + b && (a + b)[0] == a[0];
      Assoc(a[0], Flat(a[1..]), Flat(b));
    }
  }

  lemma {:induction false} RecordsConcat(enc: Encrypt, n: nat, a: seq<seq<byte>>, b: seq<seq<byte>>)
    ensures Records(enc, n, a + b) == Records(enc, n, a) + Records(enc, n + |a|, b)
    decreases |a|
  {
    hide Record;
    if a == [] {
      assert a + b == b;
    } else {
      RecordsConcat(enc, n + 1, a[1..], b);
      assert (a + b)[1..] == a[1..] + b;
    }
  }

  /** Of a stream of records, wherever it is cut: whole records, then less than one. */
  ghost predicate Cut(enc: Encrypt, n: nat, ps: seq<seq<byte>>, s: seq<byte>, j: nat, part: seq<byte>) {
    && j <= |ps| && s == Records(enc, n, ps[..j]) + part
    && (if j < |ps| then part < Record(enc, n + j, ps[j]) else part == [])
  }

  lemma {:induction false} IsCut(enc: Encrypt, n: nat, ps: seq<seq<byte>>, s: seq<byte>)
    returns (j: nat, part: seq<byte>)
    requires s <= Records(enc, n, ps)
    ensures Cut(enc, n, ps, s, j, part)
    decreases |ps|
  {
    hide Record;
    if ps == [] {
      j, part := 0, [];
      assert ps[..0] == [];
    } else {
      var r := Record(enc, n, ps[0]);
      if |s| < |r| {
        j, part := 0, s;
        assert ps[..0] == [];
        assert s == Records(enc, n, ps)[..|s|] == r[..|s|];
      } else {
        assert s[..|r|] == r && s[|r|..] <= Records(enc, n + 1, ps[1..]);
        j, part := IsCut(enc, n + 1, ps[1..], s[|r|..]);
        j := j + 1;
        assert ps[..j][1..] == ps[1..][..j - 1];
        assert s == r + s[|r|..];
      }
    }
  }

  /** `sent`: the bytes given to sends, as the records `chunks`; `coming`: written and not yet
      arrived; `got`: the bytes receives returned. */
  datatype Channel = Channel(sent: seq<byte>, chunks: seq<seq<byte>>, coming: seq<byte>, end: End, got: seq<byte>,
                             broken: bool)

  datatype Action = Send(p: seq<byte>) | Arrive(n: nat) | Want(n: nat)

  function Act(enc: Encrypt, dec: Decrypt, scap: nat, c: Channel, act: Action): Channel {
    match act
    case Send(p) =>
      c.(sent := c.sent + p, chunks := c.chunks + Chunks(p), coming := c.coming + Records(enc, |c.chunks|, Chunks(p)))
    case Arrive(n) =>
      var k := if n <= |c.coming| then n else |c.coming|;
      c.(coming := c.coming[k..], end := c.end.(incoming := c.end.incoming + c.coming[..k]))
    case Want(n) =>                                  // at the end of the input it gives up
      if c.broken then c
      else match Receive(dec, c.end, n, scap)
        case None => c.(broken := true)
        case Some(t) => c.(got := c.got + t.out, end := t.end)
  }

  const Idle := Channel([], [], [], End(0, [], []), [], false)

  ghost predicate IsRun(enc: Encrypt, dec: Decrypt, scap: nat, cs: seq<Channel>, run: seq<Action>) {
    && |cs| == |run| + 1 && cs[0] == Idle
    && forall i :: 0 <= i < |run| ==> cs[i + 1] == Act(enc, dec, scap, cs[i], run[i])
  }

  /** Nothing lost, nothing invented, nothing out of place. */
  ghost predicate Whole(enc: Encrypt, c: Channel) {
    && Chunked(c.chunks) && c.end.nonce <= |c.chunks|
    && (c.got + c.end.stash) + Flat(c.chunks[c.end.nonce..]) == c.sent
    && c.end.incoming + c.coming == Records(enc, c.end.nonce, c.chunks[c.end.nonce..])
  }

  lemma SendKeeps(enc: Encrypt, dec: Decrypt, scap: nat, c: Channel, p: seq<byte>)
    requires Whole(enc, c)
    ensures Whole(enc, Act(enc, dec, scap, c, Send(p)))
  {
    hide Records;
    hide Flat;
    hide Chunks;
    hide Chunked;
    var n, ps := c.end.nonce, Chunks(p);
    var rest := c.chunks[n..];
    assert (c.chunks + ps)[n..] == rest + ps;
    FlatConcat(rest, ps);
    RecordsConcat(enc, n, rest, ps);
    Assoc(c.got + c.end.stash, Flat(rest), p);
    Assoc(c.end.incoming, c.coming, Records(enc, |c.chunks|, ps));
    ChunkedConcat(c.chunks, ps);
  }

  lemma ChunkedConcat(a: seq<seq<byte>>, b: seq<seq<byte>>)
    requires Chunked(a) && Chunked(b)
    ensures Chunked(a + b)
  {
  }

  /** A receive from a whole channel: given exactly when the whole records that have arrived hold
      enough, and the channel whole after it. */
  lemma WantKeeps(enc: Encrypt, dec: Decrypt, scap: nat, c: Channel, want: nat)
    requires Sealing(enc, dec) && scap >= MAX_MSG && Whole(enc, c)
    ensures var r := Receive(dec, c.end, want, scap);
      r.Some? ==> Whole(enc, c.(got := c.got + r.value.out, end := r.value.end)) && |r.value.out| == want
  {
    hide Sealing;
    hide Receive;
    hide Records;
    hide Flat;
    hide Cut;
    var n := c.end.nonce;
    var rest := c.chunks[n..];
    assert c.end.incoming == Records(enc, n, rest)[..|c.end.incoming|];
    var j, part := IsCut(enc, n, rest, c.end.incoming);
    AfterCut(enc, dec, scap, c.end, rest, j, part, want);
    var r := Receive(dec, c.end, want, scap);
    if r.Some? {
      TakenIsWhole(enc, c, rest, j, part, want, r.value);
    }
  }

  lemma TakenIsWhole(enc: Encrypt, c: Channel, rest: seq<seq<byte>>, j: nat, part: seq<byte>, want: nat, t: Taken)
    requires Whole(enc, c) && rest == c.chunks[c.end.nonce..] && Cut(enc, c.end.nonce, rest, c.end.incoming, j, part)
    requires Given(enc, Some(t), c.end, rest[..j], part, want)
    ensures Whole(enc, c.(got := c.got + t.out, end := t.end)) && |t.out| == want
  {
    hide Records;
    hide Flat;
    hide Chunked;
    var n, ps, later := c.end.nonce, rest[..j], rest[j..];
    assert rest == ps + later;
    var stream := c.end.stash + Flat(ps);
    var k := t.end.nonce - n;
    assert ps[k..] + later == c.chunks[n + k..];
    assert (c.got + c.end.stash) + (Flat(ps) + Flat(later)) == c.sent by { FlatConcat(ps, later); }
    assert (c.got + t.out + t.end.stash) + Flat(ps[k..] + later) == c.sent by {
      FlatConcat(ps[k..], later);
      Rearranged(c.got, c.end.stash, Flat(ps), Flat(later), want, t.end.stash, Flat(ps[k..]));
    }
    assert t.end.incoming + c.coming == Records(enc, n + k, ps[k..] + later) by {
      RecordsConcat(enc, n, ps, later);
      RecordsConcat(enc, n + k, ps[k..], later);
      SameTail(Records(enc, n, ps), part, c.coming, Records(enc, n + j, later));
      Assoc(Records(enc, n + k, ps[k..]), part, c.coming);
    }
  }

  lemma AfterCut(enc: Encrypt, dec: Decrypt, scap: nat, e: End, rest: seq<seq<byte>>, j: nat, part: seq<byte>, want: nat)
    requires Sealing(enc, dec) && scap >= MAX_MSG && Chunked(rest) && Cut(enc, e.nonce, rest, e.incoming, j, part)
    ensures Given(enc, Receive(dec, e, want, scap), e, rest[..j], part, want)
    ensures Receive(dec, e, want, scap).Some? <==> want <= |e.stash| + |Flat(rest[..j])|
  {
    hide Records;
    hide Receive;
    hide Kept;
    var next := if j < |rest| then rest[j] else [];
    ReceiveGives(enc, dec, e, rest[..j], next, part, want, scap);
  }

  lemma Rearranged(got: seq<byte>, stash: seq<byte>, arrived: seq<byte>, later: seq<byte>, want: nat,
                   stash': seq<byte>, left: seq<byte>)
    requires want <= |stash + arrived| && stash' + left == (stash + arrived)[want..]
    ensures (got + (stash + arrived)[..want] + stash') + (left + later) == (got + stash) + (arrived + later)
  {
    var s := stash + arrived;
    assert s == s[..want] + s[want..];
    assert (got + s[..want] + stash') + (left + later) == got + (s[..want] + (stash' + left)) + later;
    assert got + s + later == (got + stash) + (arrived + later);
  }

  lemma SameTail(a: seq<byte>, part: seq<byte>, coming: seq<byte>, b: seq<byte>)
    requires (a + part) + coming == a + b
    ensures part + coming == b
  {
    assert part + coming == ((a + part) + coming)[|a|..] && b == (a + b)[|a|..];
  }

  lemma {:induction false} RunKeeps(enc: Encrypt, dec: Decrypt, scap: nat, cs: seq<Channel>, run: seq<Action>, k: nat)
    requires Sealing(enc, dec) && scap >= MAX_MSG && IsRun(enc, dec, scap, cs, run) && k <= |run|
    ensures Whole(enc, cs[k])
  {
    hide Sealing;
    hide Receive;
    if k > 0 {
      RunKeeps(enc, dec, scap, cs, run, k - 1);
      var c, act := cs[k - 1], run[k - 1];
      match act
      case Send(p) => SendKeeps(enc, dec, scap, c, p);
      case Want(n) => WantKeeps(enc, dec, scap, c, n);
      case Arrive(n) =>
        var i := if n <= |c.coming| then n else |c.coming|;
        assert (c.end.incoming + c.coming[..i]) + c.coming[i..] == c.end.incoming + c.coming;
    }
  }

  /** In every run: the bytes returned, then the stash, then the records still on the wire are the
      bytes sent; what is on the wire is exactly those records; and a receive is refused only for
      want of whole records - never because the stash was too small. */
  lemma StreamIdentity(enc: Encrypt, dec: Decrypt, scap: nat, cs: seq<Channel>, run: seq<Action>, k: nat, want: nat)
    requires Sealing(enc, dec) && scap >= MAX_MSG && IsRun(enc, dec, scap, cs, run) && k <= |run|
    ensures var c := cs[k];
      && c.end.nonce <= |c.chunks| && c.got + c.end.stash + Flat(c.chunks[c.end.nonce..]) == c.sent
      && c.end.incoming + c.coming == Records(enc, c.end.nonce, c.chunks[c.end.nonce..])
    ensures var c := cs[k];
      var rest := c.chunks[c.end.nonce..];
      exists j: nat, part :: Cut(enc, c.end.nonce, rest, c.end.incoming, j, part)
        && (Receive(dec, c.end, want, scap).Some? <==> want <= |c.end.stash| + |Flat(rest[..j])|)
  {
    hide Sealing;
    hide Receive;
    hide Record;
    hide Cut;
    RunKeeps(enc, dec, scap, cs, run, k);
    var c := cs[k];
    var rest := c.chunks[c.end.nonce..];
    assert c.end.incoming == Records(enc, c.end.nonce, rest)[..|c.end.incoming|];
    var j, part := IsCut(enc, c.end.nonce, rest, c.end.incoming);
    AfterCut(enc, dec, scap, c.end, rest, j, part, want);
  }

  /** A record: the sealed length in two bytes, least significant first, and the sealed bytes. */
  lemma RecordLayout(enc: Encrypt, dec: Decrypt, n: nat, p: seq<byte>)
    requires Sealing(enc, dec) && |p| <= MAX_PT
    ensures var r := Record(enc, n, p);
      |r| == 2 + |p| + TAG_LEN && r[0] == |enc(n, p)| % 256 && r[1] == |enc(n, p)| / 256 && r[2..] == enc(n, p)
  {
    Sealed(enc, dec, n, p);
    var v := |enc(n, p)|;
    assert Le(v, 2) == [v % 256] + Le(v / 256, 1) && Le(v / 256, 1) == [v / 256 % 256] + Le(v / 256 / 256, 0);
  }

  // ---- what was asked for ----

  /** The bytes given to sends, one after the other. */
  function Sent(run: seq<Action>): seq<byte> {
    if run == [] then []
    else
      var front := Sent(run[..|run| - 1]);
      match run[|run| - 1] case Send(p) => front + p case _ => front
  }

  /** The bytes receives asked for, as long as none was refused. */
  function Wanted(cs: seq<Channel>, run: seq<Action>, k: nat): nat
    requires |cs| == |run| + 1 && k <= |run|
  {
    if k == 0 then 0
    else
      var front := Wanted(cs, run, k - 1);
      match run[k - 1] case Want(n) => if cs[k].broken then front else front + n case _ => front
  }

  /** In every run the stream is what callers sent, and as much of it has been returned as callers asked
      for: what they got is the first so many bytes of what was sent. */
  lemma {:induction false} StreamIsAsked(enc: Encrypt, dec: Decrypt, scap: nat, cs: seq<Channel>, run: seq<Action>, k: nat)
    requires Sealing(enc, dec) && scap >= MAX_MSG && IsRun(enc, dec, scap, cs, run) && k <= |run|
    ensures cs[k].sent == Sent(run[..k]) && |cs[k].got| == Wanted(cs, run, k)
    ensures cs[k].got <= Sent(run[..k])
  {
    hide Sealing;
    hide Receive;
    hide Chunks;
    hide Records;
    RunKeeps(enc, dec, scap, cs, run, k);
    GotIsSent(enc, cs[k]);
    hide Whole;
    hide Flat;
    if k > 0 {
      StreamIsAsked(enc, dec, scap, cs, run, k - 1);
      assert run[..k][..k - 1] == run[..k - 1] && run[..k][k - 1] == run[k - 1];
      RunKeeps(enc, dec, scap, cs, run, k - 1);
      OneAsked(enc, dec, scap, cs[k - 1], run[k - 1]);
      hide Act;
    }
  }

  lemma OneAsked(enc: Encrypt, dec: Decrypt, scap: nat, c: Channel, act: Action)
    requires Sealing(enc, dec) && scap >= MAX_MSG && Whole(enc, c)
    ensures var c' := Act(enc, dec, scap, c, act);
      && c'.sent == (if act.Send? then c.sent + act.p else c.sent)
      && |c'.got| == |c.got| + if act.Want? && !c'.broken then act.n else 0
  {
    if act.Want? { WantKeeps(enc, dec, scap, c, act.n); }
    hide Sealing;
    hide Receive;
    hide Chunks;
    hide Records;
    hide Whole;
  }

  lemma GotIsSent(enc: Encrypt, c: Channel)
    requires Whole(enc, c)
    ensures c.got <= c.sent
  {
    hide Records;
    Assoc(c.got, c.end.stash, Flat(c.chunks[c.end.nonce..]));
  }
}
