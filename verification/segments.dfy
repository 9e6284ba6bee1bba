/** Cutting frames into datagrams and numbering them as RTP packets (`udp_send` and `rtp_send` in
    `libdvbfi.c`), for one frame and over a whole run of frames. */
module Segments {
  import opened Ring
  import opened Words
  import Rtp

  /** The size of the next segment, for signed sizes as the sender computes it. */
  function SegmentSize(udpSize: int, len: int, offs: int): int {
    if udpSize < len - offs then udpSize else len - offs
  }

  /** How far the send loops are after `n` passes, for signed sizes as the sender computes with them. */
  function Offset(udpSize: int, len: nat, n: nat): int {
    if n == 0 then 0
    else
      var offs := Offset(udpSize, len, n - 1);
      offs + SegmentSize(udpSize, len, offs)
  }

  /** The loop body has run, and the frame is used up. */
  ghost predicate Ends(udpSize: int, len: nat) {
    exists n: nat :: n > 0 && Offset(udpSize, len, n) >= len
  }

  lemma {:induction false} OffsetStuck(udpSize: int, len: nat, n: nat)
    requires if len > 0 then udpSize <= 0 else udpSize < 0
    ensures Offset(udpSize, len, n) <= 0 && (n > 0 ==> Offset(udpSize, len, n) < len)
  {
    if n > 0 {
      OffsetStuck(udpSize, len, n - 1);
    }
  }

  lemma {:induction false} OffsetAdvances(udpSize: int, len: nat, n: nat)
    requires udpSize > 0
    ensures Offset(udpSize, len, n) >= if n < len then n else len
    ensures Offset(udpSize, len, n) <= len
  {
    if n > 0 {
      OffsetAdvances(udpSize, len, n - 1);
    }
  }

  lemma FirstPass(udpSize: int, len: nat, n: nat)
    requires n == 1
    ensures Offset(udpSize, len, n) == SegmentSize(udpSize, len, 0)
  {
    assert Offset(udpSize, len, n - 1) == 0;
  }

  /** The loops end with a non-empty frame if and only if the segment size is positive, and with an empty
      one, for which they send one empty segment, if and only if it is not negative. */
  lemma LoopEnds(udpSize: int, len: nat)
    ensures Ends(udpSize, len) <==> if len > 0 then udpSize > 0 else udpSize >= 0
  {
    hide Offset;
    if udpSize > 0 {
      OffsetAdvances(udpSize, len, len + 1);
    } else if udpSize == 0 && len == 0 {
      var one: nat := 1;
      FirstPass(udpSize, len, one);
      assert one > 0 && Offset(udpSize, len, one) >= len;
    } else {
      forall n: nat | n > 0 ensures Offset(udpSize, len, n) < len {
        OffsetStuck(udpSize, len, n);
      }
    }
  }

  /** The segment size that counts in a loop that ends. */
  function Unit(udpSize: int): (n: nat)
    ensures n > 0 && (udpSize > 0 ==> n == udpSize)
  {
    if udpSize > 0 then udpSize else 1
  }

  lemma SegmentIsMin(udpSize: int, len: nat, offs: nat)
    requires offs <= len && Ends(udpSize, len)
    ensures SegmentSize(udpSize, len, offs) == Min(Unit(udpSize), len - offs)
  {
    hide Ends;
    LoopEnds(udpSize, len);
  }

  /** The segments of a frame. An empty frame has one empty segment. */
  function Cut(data: seq<Byte>, udpSize: nat): (segs: seq<seq<Byte>>)
    requires udpSize > 0
    ensures |segs| > 0
  {
    if |data| <= udpSize then [data] else [data[..udpSize]] + Cut(data[udpSize..], udpSize)
  }

  /** The loops that send the segments: `segs` are sent, which takes the frame up to `offs`. The loop
      body runs at least once. */
  ghost predicate CutSoFar(data: seq<Byte>, udpSize: nat, offs: nat, segs: seq<seq<Byte>>) {
    && udpSize > 0 && offs <= |data| && (segs == [] ==> offs == 0)
    && Cut(data, udpSize) == segs + if segs == [] || offs < |data| then Cut(data[offs..], udpSize) else []
  }

  lemma CutStart(data: seq<Byte>, udpSize: nat)
    requires udpSize > 0
    ensures CutSoFar(data, udpSize, 0, [])
  {
    hide Cut;
    assert data[0..] == data;
  }

  lemma CutFirst(data: seq<Byte>, udpSize: nat)
    requires udpSize > 0
    ensures |data| <= udpSize ==> Cut(data, udpSize) == [data]
    ensures |data| > udpSize ==> Cut(data, udpSize) == [data[..udpSize]] + Cut(data[udpSize..], udpSize)
  {
  }

  lemma Assoc<T>(a: seq<T>, b: seq<T>, c: seq<T>)
    ensures a + (b + c) == a + b + c && a + b + [] == a + b
  {
  }

  lemma SliceSlice(data: seq<Byte>, offs: nat, seg: nat)
    requires offs + seg <= |data|
    ensures data[offs..][..seg] == data[offs..offs + seg] && data[offs..][seg..] == data[offs + seg..]
    ensures data[..offs] + data[offs..offs + seg] == data[..offs + seg]
    ensures offs + seg == |data| ==> data[offs..] == data[offs..offs + seg]
  {
  }

  lemma CutMore(data: seq<Byte>, udpSize: nat, offs: nat, segs: seq<seq<Byte>>, seg: nat)
    requires CutSoFar(data, udpSize, offs, segs) && (segs == [] || offs < |data|)
    requires seg == Min(udpSize, |data| - offs)
    ensures CutSoFar(data, udpSize, offs + seg, segs + [data[offs..offs + seg]])
    ensures data[..offs] + data[offs..offs + seg] == data[..offs + seg]
  {
    hide Cut;
    SliceSlice(data, offs, seg);
    CutFirst(data[offs..], udpSize);
    if |data| - offs <= udpSize {
      CutLast(data, udpSize, offs, segs);
    } else {
      Assoc(segs, [data[offs..offs + seg]], Cut(data[offs + seg..], udpSize));
    }
  }

  lemma CutLast(data: seq<Byte>, udpSize: nat, offs: nat, segs: seq<seq<Byte>>)
    requires CutSoFar(data, udpSize, offs, segs) && (segs == [] || offs < |data|) && |data| - offs <= udpSize
    ensures CutSoFar(data, udpSize, |data|, segs + [data[offs..]])
  {
    hide Cut;
    CutFirst(data[offs..], udpSize);
    Assoc(segs, [data[offs..]], []);
  }

  lemma CutDone(data: seq<Byte>, udpSize: nat, offs: nat, segs: seq<seq<Byte>>)
    requires CutSoFar(data, udpSize, offs, segs) && segs != [] && offs >= |data|
    ensures segs == Cut(data, udpSize) && data[..offs] == data
  {
    hide Cut;
  }

  function Joined(segs: seq<seq<Byte>>): seq<Byte> {
    if segs == [] then [] else segs[0] + Joined(segs[1..])
  }

  /** Nothing is lost, repeated or reordered. */
  lemma {:induction false} CutJoins(data: seq<Byte>, udpSize: nat)
    requires udpSize > 0
    ensures Joined(Cut(data, udpSize)) == data
  {
    if |data| <= udpSize {
      assert [data][1..] == [];
      assert Joined([data]) == data + Joined([]);
    } else {
      CutJoins(data[udpSize..], udpSize);
      var segs := Cut(data, udpSize);
      assert segs[1..] == Cut(data[udpSize..], udpSize);
      assert data[..udpSize] + data[udpSize..] == data;
    }
  }

  /** All segments but the last are full, and the last one is empty only for an empty frame. */
  lemma {:induction false} CutSizes(data: seq<Byte>, udpSize: nat)
    requires udpSize > 0
    ensures var segs := Cut(data, udpSize);
            && (forall k | 0 <= k < |segs| :: |segs[k]| <= udpSize)
            && (forall k | 0 <= k < |segs| - 1 :: |segs[k]| == udpSize)
            && (|segs[|segs| - 1]| > 0 <==> data != [])
            && (data != [] ==> udpSize * (|segs| - 1) < |data| <= udpSize * |segs|)
  {
    if |data| > udpSize {
      CutSizes(data[udpSize..], udpSize);
      var rest := Cut(data[udpSize..], udpSize);
      OneMore(udpSize, |rest|);
      OneMore(udpSize, |rest| - 1);
    }
  }

  lemma OneMore(m: nat, n: nat)
    ensures m * (n + 1) == m * n + m
  {
  }

  /** The RTP time of `t` microseconds on a 90 kHz clock, cut to 32 bits. */
  function Ticks(t: nat): nat {
    t * 9 / 100
  }

  function Stamp(t: nat): Word {
    Ticks(t) % WORD
  }

  /** `q` is what a 90 kHz clock that started with the microseconds counts up to time `t`: nine ticks for
      every hundred of them. */
  predicate OnClock(q: nat, t: nat) {
    100 * q <= 9 * t < 100 * q + 100
  }

  /** 90000 ticks a second, and never a whole tick off. */
  lemma TicksRate(t: nat)
    ensures Ticks(t + 1_000_000) == Ticks(t) + 90_000
    ensures forall q: nat :: OnClock(q, t) <==> q == Ticks(t)
  {
  }

  /** Consecutive segments are given times 12 microseconds apart, which is one or two ticks. */
  lemma TicksAdvance(t: nat)
    ensures Ticks(t) < Ticks(t + 12) <= Ticks(t) + 2
    ensures Stamp(t + 12) == (Stamp(t) + 1) % WORD || Stamp(t + 12) == (Stamp(t) + 2) % WORD
  {
    var d := Ticks(t + 12) - Ticks(t);
    StampAdds(Ticks(t), d);
  }

  lemma StampAdds(a: nat, d: nat)
    ensures (a + d) % WORD == (a % WORD + d) % WORD
  {
    var c := a % WORD + d;
    ModuloUnique(a + d, WORD, a / WORD + c / WORD, c % WORD);
  }

  lemma {:induction false} TicksIncrease(t: nat, j: nat, k: nat)
    requires j < k
    ensures Ticks(t + 12 * j) < Ticks(t + 12 * k)
  {
    TicksAdvance(t + 12 * (k - 1));
    if j < k - 1 {
      TicksIncrease(t, j, k - 1);
    }
  }

  /** The packets for the segments of a frame, numbered from `n` and stamped from time `t` on. */
  function Packets(ssrc: seq<Byte>, segs: seq<seq<Byte>>, n: Word, t: nat): (ps: seq<seq<Byte>>)
    requires |ssrc| == 4
    ensures |ps| == |segs|
    decreases segs
  {
    if segs == [] then []
    else [Rtp.Header(ssrc, n % 0x1_0000, Stamp(t)) + segs[0]] + Packets(ssrc, segs[1..], U32(n + 1), t + 12)
  }

  lemma {:induction false} PacketAt(ssrc: seq<Byte>, segs: seq<seq<Byte>>, n: Word, t: nat, k: nat)
    requires |ssrc| == 4 && k < |segs|
    ensures Packets(ssrc, segs, n, t)[k] == Rtp.Header(ssrc, (n + k) % 0x1_0000, Stamp(t + 12 * k)) + segs[k]
    decreases k
  {
    hide Rtp.Header, Stamp, U32;
    if k > 0 {
      PacketAt(ssrc, segs[1..], U32(n + 1), t + 12, k - 1);
      CountOn(n, k);
      assert t + 12 + 12 * (k - 1) == t + 12 * k;
    }
  }

  /** The packet counter wraps at 32 bits, which the 16 bits of it that are sent do not notice. */
  lemma CountOn(n: Word, k: nat)
    requires k > 0
    ensures (U32(n + 1) + (k - 1)) % 0x1_0000 == (n + k) % 0x1_0000
  {
    if n + 1 == WORD {
      assert n + k == (k - 1) + 0x1_0000 * 0x1_0000;
      ModuloUnique(n + k, 0x1_0000, (k - 1) / 0x1_0000 + 0x1_0000, (k - 1) % 0x1_0000);
    }
  }

  /** One more segment. */
  lemma PacketsSnoc(ssrc: seq<Byte>, segs: seq<seq<Byte>>, s: seq<Byte>, n: Word, t: nat)
    requires |ssrc| == 4
    ensures Packets(ssrc, segs + [s], n, t)
            == Packets(ssrc, segs, n, t)
               + [Rtp.Header(ssrc, (n + |segs|) % 0x1_0000, Stamp(t + 12 * |segs|)) + s]
  {
    hide Rtp.Header, Stamp, Packets;
    forall k | 0 <= k < |segs| ensures Packets(ssrc, segs + [s], n, t)[k] == Packets(ssrc, segs, n, t)[k] {
      PacketAt(ssrc, segs + [s], n, t, k);
      PacketAt(ssrc, segs, n, t, k);
    }
    PacketAt(ssrc, segs + [s], n, t, |segs|);
  }

  /** What a receiver gets out of packets, one after the other. */
  function Received(ps: seq<seq<Byte>>): seq<Byte>
    requires forall k | 0 <= k < |ps| :: Rtp.Complete(ps[k])
  {
    if ps == [] then [] else Rtp.Payload(ps[0]) + Received(ps[1..])
  }

  lemma {:induction false} PacketsReceived(ssrc: seq<Byte>, segs: seq<seq<Byte>>, n: Word, t: nat)
    requires |ssrc| == 4
    ensures forall k | 0 <= k < |segs| :: Rtp.Complete(Packets(ssrc, segs, n, t)[k])
    ensures Received(Packets(ssrc, segs, n, t)) == Joined(segs)
    decreases segs
  {
    if segs != [] {
      PacketsReceived(ssrc, segs[1..], U32(n + 1), t + 12);
      Rtp.PacketFields(ssrc, n % 0x1_0000, Stamp(t), segs[0]);
      hide Rtp.Header, Rtp.Complete, Rtp.Payload, Stamp;
      var ps := Packets(ssrc, segs, n, t);
      assert ps[1..] == Packets(ssrc, segs[1..], U32(n + 1), t + 12);
      forall k | 0 <= k < |segs| ensures Rtp.Complete(ps[k]) {
        if k > 0 { assert ps[k] == ps[1..][k - 1]; }
      }
    }
  }

  /** A frame sent as RTP: its payloads join to the frame, none is larger than the segment size, the
      sequence numbers are consecutive, and the times, before they are cut to 32 bits, increase. */
  lemma FrameSent(ssrc: seq<Byte>, frame: seq<Byte>, udpSize: nat, n: Word, t: nat)
    requires |ssrc| == 4 && udpSize > 0
    ensures var ps := Packets(ssrc, Cut(frame, udpSize), n, t);
            && (forall k | 0 <= k < |ps| ::
                  && Rtp.Complete(ps[k]) && |Rtp.Payload(ps[k])| <= udpSize
                  && Rtp.GetSeqnum(ps[k]) == (n + k) % 0x1_0000
                  && Rtp.GetTimestamp(ps[k]) == Ticks(t + 12 * k) % WORD && OnClock(Ticks(t + 12 * k), t + 12 * k))
            && (forall j, k | 0 <= j < k < |ps| :: Ticks(t + 12 * j) < Ticks(t + 12 * k))
            && Received(ps) == frame
  {
    var segs := Cut(frame, udpSize);
    var ps := Packets(ssrc, segs, n, t);
    PacketsReceived(ssrc, segs, n, t);
    CutJoins(frame, udpSize);
    CutSizes(frame, udpSize);
    hide Rtp.Header, Rtp.Payload, Rtp.GetSeqnum, Rtp.GetTimestamp, Rtp.Complete, Packets, Cut, Ticks, Received, Joined;
    forall k | 0 <= k < |ps|
      ensures |Rtp.Payload(ps[k])| <= udpSize && Rtp.GetSeqnum(ps[k]) == (n + k) % 0x1_0000
              && Rtp.GetTimestamp(ps[k]) == Ticks(t + 12 * k) % WORD && OnClock(Ticks(t + 12 * k), t + 12 * k)
    {
      TicksRate(t + 12 * k);
      PacketAt(ssrc, segs, n, t, k);
      Rtp.PacketFields(ssrc, (n + k) % 0x1_0000, Stamp(t + 12 * k), segs[k]);
    }
    forall j, k | 0 <= j < k < |ps| ensures Ticks(t + 12 * j) < Ticks(t + 12 * k) {
      TicksIncrease(t, j, k);
    }
  }

  // Runs ----------------------------------------------------------------------------------------

  /** A frame and the time at which it is sent, in microseconds. */
  datatype Frame = Frame(data: seq<Byte>, time: nat)

  /** The 32-bit packet counter moved on by `k`. */
  function Onward(n: Word, k: nat): Word {
    (n + k) % WORD
  }

  /** All packets of a run, with the counter at `n` before it. */
  function Wire(ssrc: seq<Byte>, udpSize: nat, frames: seq<Frame>, n: Word): seq<seq<Byte>>
    requires |ssrc| == 4 && udpSize > 0
    decreases frames
  {
    if frames == [] then []
    else
      var segs := Cut(frames[0].data, udpSize);
      Packets(ssrc, segs, n, frames[0].time) + Wire(ssrc, udpSize, frames[1..], Onward(n, |segs|))
  }

  function Datas(frames: seq<Frame>): seq<Byte> {
    if frames == [] then [] else frames[0].data + Datas(frames[1..])
  }

  /** The bytes of each frame. */
  function Contents(frames: seq<Frame>): (s: seq<seq<Byte>>)
    ensures |s| == |frames|
  {
    seq(|frames|, k requires 0 <= k < |frames| => frames[k].data)
  }

  lemma ContentsGrow(frames: seq<Frame>, f: Frame)
    ensures Contents(frames + [f]) == Contents(frames) + [f.data]
  {
  }

  lemma {:induction false} JoinedConcat(a: seq<seq<Byte>>, b: seq<seq<Byte>>)
    ensures Joined(a + b) == Joined(a) + Joined(b)
  {
    if a == [] {
      assert a + b == b;
    } else {
      assert (a + b)[1..] == a[1..] + b;
      JoinedConcat(a[1..], b);
    }
  }

  lemma {:induction false} DatasJoined(frames: seq<Frame>)
    ensures Datas(frames) == Joined(Contents(frames))
  {
    if frames != [] {
      DatasJoined(frames[1..]);
      assert Contents(frames)[1..] == Contents(frames[1..]);
    }
  }

  /** Sending one more frame, with the counter where the packets before have left it, continues the
      run. */
  lemma {:induction false} WireGrows(ssrc: seq<Byte>, udpSize: nat, frames: seq<Frame>, f: Frame, n: Word)
    requires |ssrc| == 4 && udpSize > 0
    ensures Wire(ssrc, udpSize, frames + [f], n)
            == Wire(ssrc, udpSize, frames, n)
               + Packets(ssrc, Cut(f.data, udpSize), (n + |Wire(ssrc, udpSize, frames, n)|) % WORD, f.time)
    ensures |Wire(ssrc, udpSize, frames + [f], n)| == |Wire(ssrc, udpSize, frames, n)| + |Cut(f.data, udpSize)|
    decreases frames
  {
    hide Cut, Packets, Wire;
    if frames == [] {
      WireNone(ssrc, udpSize, n);
      WireOne(ssrc, udpSize, f, n);
      assert [] + [f] == [f];
    } else {
      var segs := Cut(frames[0].data, udpSize);
      var m := (n + |segs|) % WORD;
      var rest := Wire(ssrc, udpSize, frames[1..], m);
      assert (frames + [f])[1..] == frames[1..] + [f];
      WireFirst(ssrc, udpSize, frames, n, segs, m);
      WireFirst(ssrc, udpSize, frames + [f], n, segs, m);
      WireGrows(ssrc, udpSize, frames[1..], f, m);
      CountBoth(n, |segs|, |rest|);
      Assoc(Packets(ssrc, segs, n, frames[0].time), rest,
            Packets(ssrc, Cut(f.data, udpSize), (m + |rest|) % WORD, f.time));
    }
  }

  lemma WireNone(ssrc: seq<Byte>, udpSize: nat, n: Word)
    requires |ssrc| == 4 && udpSize > 0
    ensures Wire(ssrc, udpSize, [], n) == [] && n % WORD == n
  {
  }

  lemma WireOne(ssrc: seq<Byte>, udpSize: nat, f: Frame, n: Word)
    requires |ssrc| == 4 && udpSize > 0
    ensures Wire(ssrc, udpSize, [f], n) == Packets(ssrc, Cut(f.data, udpSize), n, f.time)
  {
    hide Cut, Packets, Wire;
    var segs := Cut(f.data, udpSize);
    var m := (n + |segs|) % WORD;
    WireFirst(ssrc, udpSize, [f], n, segs, m);
    assert [f][1..] == [];
    WireNone(ssrc, udpSize, m);
  }

  lemma WireFirst(ssrc: seq<Byte>, udpSize: nat, frames: seq<Frame>, n: Word, segs: seq<seq<Byte>>, m: Word)
    requires |ssrc| == 4 && udpSize > 0 && frames != []
    requires segs == Cut(frames[0].data, udpSize) && m == Onward(n, |segs|)
    ensures Wire(ssrc, udpSize, frames, n)
            == Packets(ssrc, segs, n, frames[0].time) + Wire(ssrc, udpSize, frames[1..], m)
  {
    hide Cut, Packets, Onward;
  }

  lemma CountBoth(n: Word, a: nat, b: nat)
    ensures ((n + a) % WORD + b) % WORD == (n + (a + b)) % WORD
  {
    StampAdds(n + a, b);
  }

  lemma {:induction false} ReceivedConcat(a: seq<seq<Byte>>, b: seq<seq<Byte>>)
    requires forall k | 0 <= k < |a| :: Rtp.Complete(a[k])
    requires forall k | 0 <= k < |b| :: Rtp.Complete(b[k])
    ensures Received(a + b) == Received(a) + Received(b)
  {
    hide Rtp.Complete, Rtp.Payload;
    if a == [] {
      assert a + b == b;
    } else {
      assert (a + b)[1..] == a[1..] + b;
      ReceivedConcat(a[1..], b);
    }
  }

  predicate Numbered(p: seq<Byte>, m: nat) {
    Rtp.Complete(p) && Rtp.GetSeqnum(p) == m
  }

  /** Complete packets whose sequence numbers count up without a gap from `n`. */
  ghost predicate Counted(ps: seq<seq<Byte>>, n: nat) {
    forall k | 0 <= k < |ps| :: Numbered(ps[k], (n + k) % 0x1_0000)
  }

  lemma CountedConcat(a: seq<seq<Byte>>, b: seq<seq<Byte>>, n: Word)
    requires Counted(a, n) && Counted(b, (n + |a|) % WORD)
    ensures Counted(a + b, n)
  {
    hide Numbered;
    var c := a + b;
    forall k | 0 <= k < |c| ensures Numbered(c[k], (n + k) % 0x1_0000) {
      if k >= |a| {
        assert c[k] == b[k - |a|];
        CountAcross(n, |a|, k);
      } else {
        assert c[k] == a[k];
      }
    }
  }

  lemma FrameCounted(ssrc: seq<Byte>, frame: seq<Byte>, udpSize: nat, n: Word, t: nat)
    requires |ssrc| == 4 && udpSize > 0
    ensures Counted(Packets(ssrc, Cut(frame, udpSize), n, t), n)
    ensures forall k | 0 <= k < |Cut(frame, udpSize)| :: Rtp.Complete(Packets(ssrc, Cut(frame, udpSize), n, t)[k])
    ensures Received(Packets(ssrc, Cut(frame, udpSize), n, t)) == frame
  {
    hide Rtp.Complete, Rtp.GetSeqnum, Packets, Cut, Received, Ticks;
    FrameSent(ssrc, frame, udpSize, n, t);
  }

  /** Across all frames of a run, sequence numbers count up without a gap, and the receiver gets the
      frames, in order and unchanged. */
  lemma {:induction false} RunSent(ssrc: seq<Byte>, udpSize: nat, frames: seq<Frame>, n: Word)
    requires |ssrc| == 4 && udpSize > 0
    ensures Counted(Wire(ssrc, udpSize, frames, n), n)
    ensures forall k | 0 <= k < |Wire(ssrc, udpSize, frames, n)| :: Rtp.Complete(Wire(ssrc, udpSize, frames, n)[k])
    ensures Received(Wire(ssrc, udpSize, frames, n)) == Datas(frames)
    decreases frames
  {
    hide Rtp.Complete, Rtp.Payload, Rtp.GetSeqnum, Packets, Cut;
    if frames != [] {
      var segs := Cut(frames[0].data, udpSize);
      var a := Packets(ssrc, segs, n, frames[0].time);
      var m := (n + |segs|) % WORD;
      var b := Wire(ssrc, udpSize, frames[1..], m);
      FrameCounted(ssrc, frames[0].data, udpSize, n, frames[0].time);
      RunSent(ssrc, udpSize, frames[1..], m);
      CountedConcat(a, b, n);
      ReceivedConcat(a, b);
    }
  }

  /** Which packet of a run carries which segment, and when it was stamped: packet `k` of frame `j`. */
  lemma {:induction false} RunStamped(ssrc: seq<Byte>, udpSize: nat, frames: seq<Frame>, n: Word, j: nat, k: nat)
    requires |ssrc| == 4 && udpSize > 0 && j < |frames| && k < |Cut(frames[j].data, udpSize)|
    ensures |Wire(ssrc, udpSize, frames[..j], n)| + k < |Wire(ssrc, udpSize, frames, n)|
    ensures var p := Wire(ssrc, udpSize, frames, n)[|Wire(ssrc, udpSize, frames[..j], n)| + k];
            var time := frames[j].time + 12 * k;
            && Rtp.Complete(p) && Rtp.Payload(p) == Cut(frames[j].data, udpSize)[k]
            && Rtp.GetTimestamp(p) == Ticks(time) % WORD && OnClock(Ticks(time), time)
    decreases j
  {
    hide Rtp.Complete, Rtp.Payload, Rtp.GetTimestamp, Rtp.Header, Packets, Cut, Wire, Onward, Ticks, OnClock;
    var segs := Cut(frames[0].data, udpSize);
    var m := Onward(n, |segs|);
    WireFirst(ssrc, udpSize, frames, n, segs, m);
    if j == 0 {
      WireNone(ssrc, udpSize, n);
      assert frames[..0] == [];
      PacketCarries(ssrc, segs, n, frames[0].time, k);
    } else {
      var front := frames[..j];
      assert front[1..] == frames[1..][..j - 1];
      WireFirst(ssrc, udpSize, front, n, segs, m);
      RunStamped(ssrc, udpSize, frames[1..], m, j - 1, k);
    }
  }

  lemma PacketCarries(ssrc: seq<Byte>, segs: seq<seq<Byte>>, n: Word, t: nat, k: nat)
    requires |ssrc| == 4 && k < |segs|
    ensures var p := Packets(ssrc, segs, n, t)[k];
            && Rtp.Complete(p) && Rtp.Payload(p) == segs[k]
            && Rtp.GetTimestamp(p) == Ticks(t + 12 * k) % WORD && OnClock(Ticks(t + 12 * k), t + 12 * k)
  {
    PacketAt(ssrc, segs, n, t, k);
    Rtp.PacketFields(ssrc, (n + k) % 0x1_0000, Stamp(t + 12 * k), segs[k]);
    TicksRate(t + 12 * k);
    hide Rtp.Complete, Rtp.Payload, Rtp.GetTimestamp, Rtp.Header, Packets, Ticks, OnClock;
  }

  lemma CountAcross(n: Word, a: nat, k: nat)
    requires a <= k
    ensures ((n + a) % WORD + (k - a)) % 0x1_0000 == (n + k) % 0x1_0000
  {
    var q, r := (n + a) / WORD, (n + a) % WORD;
    assert n + a == q * WORD + r;
    var s := r + (k - a);
    assert n + k == q * 0x1_0000 * 0x1_0000 + s;
    ModuloUnique(n + k, 0x1_0000, q * 0x1_0000 + s / 0x1_0000, s % 0x1_0000);
  }
}
