/** The bytes of the frame lane (src/clane.c): what a connection carries, and what a receiver
    makes of them. The receiver is given byte by byte here, so that how the bytes were cut into
    reads cannot matter; module LaneCode shows that the reading code agrees with it. */
module LaneWire {
  import opened Bytes

  const FRAME_MAX := 63 + 65000 + 64
  const HELLO_LEN := 10
  const MAGIC: seq<byte> := [0x50, 0x43, 0x4C, 0x31]

  type Data = seq<byte>

  /** A frame on the wire: its length in four bytes, most significant first, then its bytes. */
  function Wire(d: Data): (w: seq<byte>)
    ensures |w| == 4 + |d|
  {
    Be(|d|, 4) + d
  }

  function WireAll(ds: seq<Data>): seq<byte> {
    if ds == [] then [] else WireAll(ds[..|ds| - 1]) + Wire(ds[|ds| - 1])
  }

  /** An inbound connection: the bytes gathered towards the hello or the next frame, and the
      frames handed on. */
  datatype Rx = Rx(helloOk: bool, buf: seq<byte>, out: seq<Data>, dead: bool)

  const Fresh := Rx(false, [], [], false)

  predicate HelloGood(h: seq<byte>, src: seq<byte>)
    requires |h| >= 8
  {
    h[..4] == MAGIC && h[4..8] == src
  }

  function FrameLen(b: seq<byte>): nat
    requires |b| >= 4
  {
    UnBe(b[..4])
  }

  predicate LenGood(n: nat) { 1 <= n <= FRAME_MAX }

  /** One more byte. `src` is the address the connection came from. */
  function Step(s: Rx, b: byte, src: seq<byte>): Rx {
    var buf := s.buf + [b];
    if s.dead then s
    else if !s.helloOk then
      if |buf| < HELLO_LEN then s.(buf := buf)
      else if HelloGood(buf, src) then s.(helloOk := true, buf := [])
      else s.(dead := true)
    else if |buf| < 4 then s.(buf := buf)
    else if !LenGood(FrameLen(buf)) then s.(dead := true)
    else if |buf| < 4 + FrameLen(buf) then s.(buf := buf)
    else s.(buf := [], out := s.out + [buf[4..]])
  }

  function Feed(s: Rx, bs: seq<byte>, src: seq<byte>): Rx {
    if bs == [] then s else Step(Feed(s, bs[..|bs| - 1], src), bs[|bs| - 1], src)
  }

  lemma {:induction false} FeedConcat(s: Rx, a: seq<byte>, b: seq<byte>, src: seq<byte>)
    ensures Feed(s, a + b, src) == Feed(Feed(s, a, src), b, src)
  {
    hide Step;
    if b == [] {
      assert a + b == a;
    } else {
      FeedConcat(s, a, b[..|b| - 1], src);
      assert (a + b)[..|a + b| - 1] == a + b[..|b| - 1];
    }
  }

  lemma FeedOne(s: Rx, bs: seq<byte>, k: nat, src: seq<byte>)
    requires k < |bs|
    ensures Feed(s, bs[..k + 1], src) == Step(Feed(s, bs[..k], src), bs[k], src)
  {
    hide Step;
    assert bs[..k + 1][..k] == bs[..k];
  }

  lemma {:induction false} DeadStays(s: Rx, bs: seq<byte>, src: seq<byte>)
    requires s.dead
    ensures Feed(s, bs, src) == s
  {
    if bs != [] { DeadStays(s, bs[..|bs| - 1], src); }
  }

  /** Still short of the hello, or of the frame its first four bytes announce. */
  predicate Short(helloOk: bool, b: seq<byte>) {
    if !helloOk then |b| < HELLO_LEN
    else |b| < 4 || (LenGood(FrameLen(b)) && |b| < 4 + FrameLen(b))
  }

  lemma {:induction false} Gathers(s: Rx, bs: seq<byte>, src: seq<byte>)
    requires !s.dead && Short(s.helloOk, s.buf + bs)
    ensures Feed(s, bs, src) == s.(buf := s.buf + bs)
    decreases |bs|
  {
    hide UnBe;
    if bs == [] {
      assert s.buf + bs == s.buf;
    } else {
      var front := bs[..|bs| - 1];
      assert s.buf + bs == (s.buf + front) + [bs[|bs| - 1]];
      assert |s.buf + front| >= 4 ==> (s.buf + front)[..4] == (s.buf + bs)[..4];
      Gathers(s, front, src);
    }
  }

  /** The byte that is not short any more decides. */
  lemma Decides(s: Rx, bs: seq<byte>, src: seq<byte>)
    requires !s.dead && bs != [] && Short(s.helloOk, s.buf + bs[..|bs| - 1])
    ensures Feed(s, bs, src) == Step(s.(buf := s.buf + bs[..|bs| - 1]), bs[|bs| - 1], src)
    ensures (s.buf + bs[..|bs| - 1]) + [bs[|bs| - 1]] == s.buf + bs
  {
    hide Step;
    Gathers(s, bs[..|bs| - 1], src);
  }

  /** Short of its end, a frame only gathers. */
  lemma PartGathers(s: Rx, d: Data, k: nat, src: seq<byte>)
    requires !s.dead && s.helloOk && s.buf == [] && LenGood(|d|) && k < 4 + |d|
    ensures Feed(s, Wire(d)[..k], src) == s.(buf := Wire(d)[..k])
  {
    hide UnBe;
    hide Feed;
    var b := Wire(d)[..k];
    if k >= 4 { WireLen(d, b); }
    hide Wire;
    assert s.buf + b == b;
    Gathers(s, b, src);
  }

  lemma WireLen(d: Data, b: seq<byte>)
    requires |b| >= 4 && b <= Wire(d) && |d| <= FRAME_MAX
    ensures FrameLen(b) == |d|
  {
    hide UnBe;
    hide Be;
    assert b[..4] == Be(|d|, 4);
    assert |d| < Pow256(4) by { Sizes(); }
    BeRound(|d|, 4);
  }

  /** The byte that completes a frame hands it on. */
  lemma Completes(s: Rx, b: byte, w: seq<byte>, src: seq<byte>)
    requires !s.dead && s.helloOk && s.buf + [b] == w && |w| >= 4 && LenGood(FrameLen(w)) && |w| == 4 + FrameLen(w)
    ensures Step(s, b, src) == s.(buf := [], out := s.out + [w[4..]])
  {
    hide UnBe;
  }

  /** A whole frame is handed on, and nothing else changes. */
  lemma FrameArrives(s: Rx, d: Data, src: seq<byte>)
    requires !s.dead && s.helloOk && s.buf == [] && LenGood(|d|)
    ensures Feed(s, Wire(d), src) == s.(out := s.out + [d])
  {
    hide FrameLen;
    hide Be;
    hide Feed;
    hide Step;
    var w := Wire(d);
    var k := |w| - 1;
    WireLen(d, w);
    assert w[4..] == d && w[..k] + [w[k]] == w && w[..k + 1] == w;
    PartGathers(s, d, k, src);
    FeedOne(s, w, k, src);
    hide Wire;
    Completes(s.(buf := w[..k]), w[k], w, src);
  }

  /** A frame of a length the receiver refuses ends the connection; nothing is handed on. */
  lemma RefusedFrame(s: Rx, d: Data, k: nat, src: seq<byte>)
    requires !s.dead && s.helloOk && s.buf == [] && |d| <= FRAME_MAX && !LenGood(|d|) && k <= 4 + |d|
    ensures var t := Feed(s, Wire(d)[..k], src);
      t.out == s.out && (if k < 4 then t == s.(buf := Wire(d)[..k]) else t.dead)
  {
    hide UnBe;
    hide Be;
    hide Feed;
    var b := Wire(d)[..k];
    if k < 4 {
      assert s.buf + b == b;
      Gathers(s, b, src);
    } else {
      WireLen(d, b);
      assert s.buf + b[..3] == b[..3] && s.buf + b == b;
      Decides(s, b, src);
    }
  }

  lemma HelloGathers(h: seq<byte>, k: nat, src: seq<byte>)
    requires |h| == HELLO_LEN && k < HELLO_LEN
    ensures Feed(Fresh, h[..k], src) == Fresh.(buf := h[..k])
  {
    hide Feed;
    assert [] + h[..k] == h[..k];
    Gathers(Fresh, h[..k], src);
  }

  lemma HelloArrives(h: seq<byte>, src: seq<byte>)
    requires |h| == HELLO_LEN
    ensures Feed(Fresh, h, src) == if HelloGood(h, src) then Rx(true, [], [], false) else Rx(false, h[..9], [], true)
    ensures !Feed(Fresh, h, src).dead <==>
      h[0] == 0x50 && h[1] == 0x43 && h[2] == 0x4C && h[3] == 0x31 && h[4..8] == src
  {
    HelloGathers(h, 9, src);
    FeedOne(Fresh, h, 9, src);
    assert h[..9] + [h[9]] == h && h[..10] == h;
    HelloBytes(h, src);
    hide Feed;
    hide HelloGood;
  }

  lemma HelloBytes(h: seq<byte>, src: seq<byte>)
    requires |h| == HELLO_LEN
    ensures HelloGood(h, src) <==>
      h[0] == 0x50 && h[1] == 0x43 && h[2] == 0x4C && h[3] == 0x31 && h[4..8] == src
  {
    var m := h[..4];
    assert m == MAGIC <==> m[0] == MAGIC[0] && m[1] == MAGIC[1] && m[2] == MAGIC[2] && m[3] == MAGIC[3];
  }

  /** The hello a sender writes: the magic, its address and its port. */
  function HelloOf(addr: seq<byte>, port: seq<byte>): (h: seq<byte>)
    requires |addr| == 4 && |port| == 2
    ensures |h| == HELLO_LEN
  {
    MAGIC + addr + port
  }

  /** It is taken exactly when the connection comes from that address, whatever the port. */
  lemma HelloTaken(addr: seq<byte>, port: seq<byte>, src: seq<byte>)
    requires |addr| == 4 && |port| == 2
    ensures var t := Feed(Fresh, HelloOf(addr, port), src);
      (!t.dead <==> src == addr) && (t.helloOk <==> src == addr) && t.out == []
  {
    var h := HelloOf(addr, port);
    HelloArrives(h, src);
    assert h[..4] == MAGIC && h[4..8] == addr;
  }

  /** Four bytes as a number, most significant first. */
  function Four(a: int, b: int, c: int, d: int): int { ((a * 256 + b) * 256 + c) * 256 + d }

  /** Any four bytes where a length is due: the connection goes on exactly when they say 1 to the longest
      frame. */
  lemma LengthDecides(s: Rx, b: seq<byte>, src: seq<byte>)
    requires !s.dead && s.helloOk && s.buf == [] && |b| == 4
    ensures var t, n := Feed(s, b, src), Four(b[0], b[1], b[2], b[3]);
      t.out == s.out && (t.dead <==> n == 0 || n > 65127) && (!t.dead ==> t == s.(buf := b))
  {
    FourBytes(b);
    hide UnBe;
    hide Feed;
    hide Four;
    assert s.buf + b[..3] == b[..3] && s.buf + b == b && b[..4] == b;
    Decides(s, b, src);
  }

  lemma FourBytes(b: seq<byte>)
    requires |b| == 4
    ensures UnBe(b) == Four(b[0], b[1], b[2], b[3])
  {
    assert b[..3][..2] == b[..2] && b[..2][..1] == b[..1] && b[..1][..0] == [];
    assert UnBe(b[..1]) == b[0];
    assert UnBe(b[..2]) == 256 * (b[0] as int) + b[1];
    assert UnBe(b[..3]) == 256 * UnBe(b[..2]) + b[2];
  }

  /** What a connection carries: the hello, then whole frames. */
  function Stream(h: seq<byte>, ds: seq<Data>): seq<byte> { h + WireAll(ds) }

  predicate Sendable(ds: seq<Data>) { forall i :: 0 <= i < |ds| ==> |ds[i]| <= FRAME_MAX }

  /** None is empty. */
  predicate AllGood(ds: seq<Data>) { forall i :: 0 <= i < |ds| ==> ds[i] != [] }

  /** Between frames, a receiver has handed on exactly the frames so far - if and only if it took the
      hello and none of them was empty (a sender queues an empty frame; a receiver refuses it). */
  lemma {:induction false} WholeFrames(h: seq<byte>, ds: seq<Data>, src: seq<byte>)
    requires |h| == HELLO_LEN && Sendable(ds)
    ensures var t := Feed(Fresh, Stream(h, ds), src);
      && t.out <= ds
      && (!t.dead <==> HelloGood(h, src) && AllGood(ds))
      && (!t.dead ==> t == Rx(true, [], ds, false))
      && (t.out == ds <==> ds == [] || (HelloGood(h, src) && AllGood(ds)))
    decreases |ds|
  {
    hide Step;
    hide Wire;
    hide LenGood;
    hide HelloGood;
    if ds == [] {
      HelloArrives(h, src);
      assert Stream(h, ds) == h;
    } else {
      var front, d := ds[..|ds| - 1], ds[|ds| - 1];
      WholeFrames(h, front, src);
      assert Stream(h, ds) == Stream(h, front) + Wire(d);
      var s := Feed(Fresh, Stream(h, front), src);
      FeedConcat(Fresh, Stream(h, front), Wire(d), src);
      assert front + [d] == ds;
      OneMore(s, d, src);
      assert AllGood(ds) <==> AllGood(front) && d != [];
      assert LenGood(|d|) <==> d != [] by { NotTooLong(d); }
    }
  }

  lemma NotTooLong(d: Data)
    requires |d| <= FRAME_MAX
    ensures LenGood(|d|) <==> d != []
  {
  }

  lemma OneMore(s: Rx, d: Data, src: seq<byte>)
    requires s.dead || (s.helloOk && s.buf == [])
    requires |d| <= FRAME_MAX
    ensures var t := Feed(s, Wire(d), src);
      if s.dead then t == s
      else if LenGood(|d|) then t == s.(out := s.out + [d])
      else t.out == s.out && t.dead
  {
    hide Step;
    hide Be;
    if s.dead {
      DeadStays(s, Wire(d), src);
    } else if LenGood(|d|) {
      FrameArrives(s, d, src);
    } else {
      RefusedFrame(s, d, 4 + |d|, src);
      assert Wire(d)[..4 + |d|] == Wire(d);
    }
  }

  /** A receiver that has taken any part of a connection - also one cut inside a frame - has handed
      on a prefix of the whole frames written: no frame torn, none twice, none out of order. */
  lemma {:induction false} PrefixArrives(h: seq<byte>, ds: seq<Data>, rest: seq<byte>, d: Data, src: seq<byte>, k: nat)
    requires |h| == HELLO_LEN && Sendable(ds) && |d| <= FRAME_MAX
    requires rest <= Wire(d) && |rest| < 4 + |d| && k <= |Stream(h, ds)| + |rest|
    ensures Feed(Fresh, (Stream(h, ds) + rest)[..k], src).out <= ds
    decreases |ds|
  {
    hide Step;
    hide Wire;
    hide HelloGood;
    var whole := Stream(h, ds);
    if k >= |whole| {
      var j := k - |whole|;
      assert (whole + rest)[..k] == whole + Wire(d)[..j];
      FeedConcat(Fresh, whole, Wire(d)[..j], src);
      WholeFrames(h, ds, src);
      PartOnly(Feed(Fresh, whole, src), d, j, src);
    } else if ds == [] {
      assert (whole + rest)[..k] == h[..k];
      HelloGathers(h, k, src);
    } else {
      var front, last := ds[..|ds| - 1], ds[|ds| - 1];
      assert whole == Stream(h, front) + Wire(last);
      var j := if k < |Stream(h, front)| then 0 else k - |Stream(h, front)|;
      PrefixArrives(h, front, Wire(last)[..j], last, src, k);
      assert (whole + rest)[..k] == (Stream(h, front) + Wire(last)[..j])[..k];
    }
  }

  /** Part of a frame hands nothing on. */
  lemma PartOnly(s: Rx, d: Data, k: nat, src: seq<byte>)
    requires s.dead || (s.helloOk && s.buf == [])
    requires |d| <= FRAME_MAX && k < 4 + |d|
    ensures Feed(s, Wire(d)[..k], src).out == s.out
  {
    hide Step;
    hide Be;
    if s.dead {
      DeadStays(s, Wire(d)[..k], src);
    } else if LenGood(|d|) {
      PartGathers(s, d, k, src);
    } else {
      RefusedFrame(s, d, k, src);
    }
  }
}
