/** RTP packets in memory (`rtp.h`, section 5.1 of RFC 3550): setters on the bytes of a packet, getters,
    and where the payload begins. */
module Rtp {
  import opened Ring
  import opened Words

  const HEADER_SIZE: nat := 12
  const TYPE_TS: Byte := 33

  // Getters -------------------------------------------------------------------------------------

  predicate CheckHdr(p: seq<Byte>)
    requires |p| >= HEADER_SIZE
  {
    p[0] & 0xC0 == 0x80
  }

  predicate CheckExtension(p: seq<Byte>)
    requires |p| >= HEADER_SIZE
  {
    p[0] & 0x10 != 0
  }

  function GetCc(p: seq<Byte>): Byte
    requires |p| >= HEADER_SIZE
  {
    p[0] & 0x0F
  }

  predicate CheckMarker(p: seq<Byte>)
    requires |p| >= HEADER_SIZE
  {
    p[1] & 0x80 != 0
  }

  function GetType(p: seq<Byte>): Byte
    requires |p| >= HEADER_SIZE
  {
    p[1] & 0x7F
  }

  /** Two bytes, the high one first. */
  function Pair(p: seq<Byte>, at: nat): nat
    requires at + 2 <= |p|
  {
    Value(p[at]) * 256 + Value(p[at + 1])
  }

  function GetSeqnum(p: seq<Byte>): nat
    requires |p| >= HEADER_SIZE
  {
    Pair(p, 2)
  }

  function GetTimestamp(p: seq<Byte>): Word
    requires |p| >= HEADER_SIZE
  {
    FromBig(p[4..8])
  }

  function GetSsrc(p: seq<Byte>): seq<Byte>
    requires |p| >= HEADER_SIZE
  {
    p[8..12]
  }

  /** Where the extension would begin: behind the contributing sources. */
  function ExtensionStart(p: seq<Byte>): nat
    requires |p| >= HEADER_SIZE
  {
    HEADER_SIZE + 4 * Value(GetCc(p))
  }

  /** Where the payload begins. */
  function PayloadStart(p: seq<Byte>): nat
    requires |p| >= HEADER_SIZE && (CheckExtension(p) ==> |p| >= ExtensionStart(p) + 4)
  {
    if CheckExtension(p) then ExtensionStart(p) + 4 * (1 + Pair(p, ExtensionStart(p) + 2)) else ExtensionStart(p)
  }

  /** A packet with all of its header in memory. */
  predicate Complete(p: seq<Byte>) {
    && |p| >= HEADER_SIZE
    && (CheckExtension(p) ==> |p| >= ExtensionStart(p) + 4)
    && PayloadStart(p) <= |p|
  }

  function Payload(p: seq<Byte>): seq<Byte>
    requires Complete(p)
  {
    p[PayloadStart(p)..]
  }

  // Setters -------------------------------------------------------------------------------------

  function PairOf(v: nat): (s: seq<Byte>)
    requires v < 0x1_0000
    ensures |s| == 2
  {
    [Octet(v / 256), Octet(v % 256)]
  }

  method SetHdr(p: array<Byte>)
    requires p.Length >= HEADER_SIZE
    modifies p
    ensures p[..] == old(p[..])[0 := 0x80]
  {
    p[0] := 0x80;
  }

  method SetType(p: array<Byte>, t: Byte)
    requires p.Length >= HEADER_SIZE
    modifies p
    ensures p[..] == old(p[..])[1 := t & 0x7F]
  {
    p[1] := t & 0x7F;
  }

  method SetSeqnum(p: array<Byte>, n: nat)
    requires p.Length >= HEADER_SIZE && n < 0x1_0000
    modifies p
    ensures p[..] == Patched(old(p[..]), 2, PairOf(n))
  {
    var s := PairOf(n);
    hide PairOf;
    p[2], p[3] := s[0], s[1];
  }

  method SetTimestamp(p: array<Byte>, t: Word)
    requires p.Length >= HEADER_SIZE
    modifies p
    ensures p[..] == Patched(old(p[..]), 4, Big(t))
  {
    var s := Big(t);
    hide Big;
    p[4], p[5], p[6], p[7] := s[0], s[1], s[2], s[3];
  }

  method SetSsrc(p: array<Byte>, ssrc: seq<Byte>)
    requires p.Length >= HEADER_SIZE && |ssrc| == 4
    modifies p
    ensures p[..] == Patched(old(p[..]), 8, ssrc)
  {
    p[8], p[9], p[10], p[11] := ssrc[0], ssrc[1], ssrc[2], ssrc[3];
  }

  /** Sets the extension bit and nothing else. */
  method SetExtension(p: array<Byte>)
    requires p.Length >= HEADER_SIZE
    modifies p
    ensures p[1..] == old(p[1..])
    ensures CheckExtension(p[..]) && GetCc(p[..]) == old(GetCc(p[..])) && CheckHdr(p[..]) == old(CheckHdr(p[..]))
  {
    BitsApart(p[0], 0);
    p[0] := p[0] | 0x10;
    assert p[1..] == old(p[1..]);
  }

  /** Sets the number of contributing sources, cut to four bits, and keeps version and extension. */
  method SetCc(p: array<Byte>, cc: Byte)
    requires p.Length >= HEADER_SIZE
    modifies p
    ensures p[1..] == old(p[1..])
    ensures GetCc(p[..]) == cc & 0x0F
    ensures CheckExtension(p[..]) == old(CheckExtension(p[..])) && CheckHdr(p[..]) == old(CheckHdr(p[..]))
  {
    BitsApart(p[0], cc);
    p[0] := p[0] & 0xF0;
    p[0] := p[0] | (cc & 0x0F);
    assert p[1..] == old(p[1..]);
  }

  lemma BitsApart(b: Byte, cc: Byte)
    ensures (b | 0x10) & 0x10 != 0 && (b | 0x10) & 0x0F == b & 0x0F && (b | 0x10) & 0xC0 == b & 0xC0
    ensures var c := (b & 0xF0) | (cc & 0x0F);
            c & 0x0F == cc & 0x0F && c & 0x10 == b & 0x10 && c & 0xC0 == b & 0xC0
    ensures (b | 0x80) & 0x80 != 0 && (b | 0x80) & 0x7F == b & 0x7F
    ensures (b & 0x7F) & 0x80 == 0 && (b & 0x7F) & 0x7F == b & 0x7F
  {
  }

  method SetMarker(p: array<Byte>)
    requires p.Length >= HEADER_SIZE
    modifies p
    ensures CheckMarker(p[..]) && GetType(p[..]) == old(GetType(p[..]))
    ensures forall k | 0 <= k < p.Length && k != 1 :: p[k] == old(p[k])
  {
    BitsApart(p[1], 0);
    p[1] := p[1] | 0x80;
  }

  method ClearMarker(p: array<Byte>)
    requires p.Length >= HEADER_SIZE
    modifies p
    ensures !CheckMarker(p[..]) && GetType(p[..]) == old(GetType(p[..]))
    ensures forall k | 0 <= k < p.Length && k != 1 :: p[k] == old(p[k])
  {
    BitsApart(p[1], 0);
    p[1] := p[1] & 0x7F;
  }

  /** The length field of a header extension. */
  method SetExtensionLength(p: array<Byte>, at: nat, n: nat)
    requires at + 4 <= p.Length && n < 0x1_0000
    modifies p
    ensures p[..] == Patched(old(p[..]), at + 2, PairOf(n))
  {
    var s := PairOf(n);
    hide PairOf;
    p[at + 2], p[at + 3] := s[0], s[1];
  }

  // Round trips ---------------------------------------------------------------------------------

  lemma PairRoundTrip(v: nat)
    requires v < 0x1_0000
    ensures Value(PairOf(v)[0]) * 256 + Value(PairOf(v)[1]) == v
  {
    hide Octet, Value;
    ValueOctet(v / 256);
    ValueOctet(v % 256);
  }

  /** A header as the sender builds it. */
  function Header(ssrc: seq<Byte>, n: nat, stamp: Word): (h: seq<Byte>)
    requires |ssrc| == 4 && n < 0x1_0000
    ensures |h| == HEADER_SIZE
  {
    [0x80, TYPE_TS] + PairOf(n) + Big(stamp) + ssrc
  }

  /** A packet of the sender is read back field by field: version 2, no extension, no contributing
      sources, no marker, the transport stream type, and the numbers that went in. */
  lemma PacketFields(ssrc: seq<Byte>, n: nat, stamp: Word, data: seq<Byte>)
    requires |ssrc| == 4 && n < 0x1_0000
    ensures var p := Header(ssrc, n, stamp) + data;
            && CheckHdr(p) && !CheckExtension(p) && GetCc(p) == 0 && !CheckMarker(p) && GetType(p) == 33
            && GetSeqnum(p) == n && GetTimestamp(p) == stamp && GetSsrc(p) == ssrc
            && Complete(p) && Payload(p) == data
            && p[0] == 0x80 && p[1] == 33 && p[2..4] == PairOf(n) && p[4..8] == Big(stamp) && p[8..12] == ssrc
            && p[12..] == data
  {
    hide PairOf, Big, FromBig, Value;
    var p := Header(ssrc, n, stamp) + data;
    assert p[0] == 0x80 && p[1] == TYPE_TS;
    FirstBytes();
    assert p[2] == PairOf(n)[0] && p[3] == PairOf(n)[1];
    PairRoundTrip(n);
    assert p[4..8] == Big(stamp);
    FromBigBig(stamp);
    ZeroOctet();
    assert p[12..] == data;
  }

  lemma FirstBytes()
    ensures var b: Byte := 0x80;
            b & 0xC0 == 0x80 && b & 0x10 == 0 && b & 0x0F == 0
    ensures TYPE_TS & 0x80 == 0 && TYPE_TS & 0x7F == TYPE_TS
  {
  }

  /** With an extension of `n` words and `cc` contributing sources, the payload begins behind both. */
  lemma PayloadBehindExtension(p: seq<Byte>, cc: nat, n: nat)
    requires |p| >= HEADER_SIZE && cc < 16 && n < 0x1_0000
    requires GetCc(p) == Octet(cc) && CheckExtension(p)
    requires |p| >= HEADER_SIZE + 4 * cc + 4 + 4 * n
    requires p[HEADER_SIZE + 4 * cc + 2..HEADER_SIZE + 4 * cc + 4] == PairOf(n)
    ensures Complete(p) && PayloadStart(p) == HEADER_SIZE + 4 * cc + 4 + 4 * n
  {
    hide PairOf, Octet, Value, GetCc, CheckExtension;
    ValueOctet(cc);
    PairRoundTrip(n);
    var at := HEADER_SIZE + 4 * cc + 2;
    assert p[at..at + 2][0] == p[at] && p[at..at + 2][1] == p[at + 1];
  }

  /** The setters of the first two bytes, one after the other. */
  method SetFlags(p: array<Byte>, cc: Byte, marked: bool)
    requires p.Length >= HEADER_SIZE
    modifies p
    ensures CheckHdr(p[..]) == old(CheckHdr(p[..])) && GetType(p[..]) == old(GetType(p[..]))
    ensures GetCc(p[..]) == cc & 0x0F && CheckExtension(p[..]) && CheckMarker(p[..]) == marked
    ensures p[2..] == old(p[2..])
  {
    hide CheckHdr, CheckExtension, GetCc, GetType, CheckMarker;
    ghost var was := p[..];
    SetCc(p, cc);
    ghost var counted := p[..];
    SetExtension(p);
    ghost var extended := p[..];
    SameTail(was, counted);
    SameTail(counted, extended);
    SameSecond(was, extended);
    if marked {
      SetMarker(p);
    } else {
      ClearMarker(p);
    }
    assert p[0] == extended[0] && p[2..] == extended[2..];
    SameFirst(extended, p[..]);
  }

  lemma SameFirst(p: seq<Byte>, q: seq<Byte>)
    requires |p| >= HEADER_SIZE && |q| >= HEADER_SIZE && p[0] == q[0]
    ensures CheckHdr(p) == CheckHdr(q) && CheckExtension(p) == CheckExtension(q) && GetCc(p) == GetCc(q)
  {
  }

  lemma SameSecond(p: seq<Byte>, q: seq<Byte>)
    requires |p| >= HEADER_SIZE && |q| >= HEADER_SIZE && p[1] == q[1]
    ensures CheckMarker(p) == CheckMarker(q) && GetType(p) == GetType(q)
  {
  }

  lemma SameTail(was: seq<Byte>, now: seq<Byte>)
    requires |was| == |now| >= 2 && now[1..] == was[1..]
    ensures now[1] == was[1] && now[2..] == was[2..]
  {
    assert now[1..][0] == was[1..][0];
    assert now[2..] == now[1..][1..] && was[2..] == was[1..][1..];
  }

  /** Two bytes written behind the first two. */
  lemma PairWritten(was: seq<Byte>, at: nat, s: seq<Byte>)
    requires 2 <= at && |s| == 2 && at + 2 <= |was|
    ensures var now := Patched(was, at, s);
            now[0] == was[0] && now[1] == was[1] && now[2..at] == was[2..at] && now[at..at + 2] == s
            && now[at + 2..] == was[at + 2..]
  {
  }

  lemma TailParts(was: seq<Byte>, now: seq<Byte>, at: nat)
    requires 2 <= at && at + 2 <= |was| && |now| == |was| && now[2..] == was[2..]
    ensures now[2..at] == was[2..at] && now[at + 2..] == was[at + 2..]
  {
    assert now[2..at] == now[2..][..at - 2] && was[2..at] == was[2..][..at - 2];
    assert now[at + 2..] == now[2..][at..] && was[at + 2..] == was[2..][at..];
  }

  /** The setters and `rtp_payload` agree: a packet given contributing sources, an extension of `n` words
      and a marker keeps version and type, is read back as such, and has its payload behind both. Of the
      rest only the length of the extension is written. */
  method BuildExtended(p: array<Byte>, cc: nat, n: nat, marked: bool)
    requires cc < 16 && n < 0x1_0000 && p.Length >= HEADER_SIZE + 4 * cc + 4 + 4 * n
    modifies p
    ensures CheckHdr(p[..]) == old(CheckHdr(p[..])) && GetType(p[..]) == old(GetType(p[..]))
    ensures GetCc(p[..]) == Octet(cc) && CheckExtension(p[..]) && CheckMarker(p[..]) == marked
    ensures Complete(p[..]) && PayloadStart(p[..]) == HEADER_SIZE + 4 * cc + 4 + 4 * n
    ensures var at := HEADER_SIZE + 4 * cc + 2;
            p[2..at] == old(p[..])[2..at] && p[at + 2..] == old(p[..])[at + 2..]
  {
    hide Octet, Value, PairOf, Complete, PayloadStart, Patched, CheckHdr, CheckExtension, GetCc, GetType, CheckMarker;
    SmallCc(cc);
    ghost var at := HEADER_SIZE + 4 * cc + 2;
    ghost var was := p[..];
    SetFlags(p, Octet(cc), marked);
    ghost var flagged := p[..];
    assert flagged[2..] == was[2..];
    TailParts(was, flagged, at);
    SetExtensionLength(p, HEADER_SIZE + 4 * cc, n);
    PairWritten(flagged, at, PairOf(n));
    ghost var now := p[..];
    SameFirst(flagged, now);
    SameSecond(flagged, now);
    PayloadBehindExtension(now, cc, n);
  }

  lemma SmallCc(cc: nat)
    requires cc < 16
    ensures Octet(cc) & 0x0F == Octet(cc)
  {
    ValueOctet(cc);
    NibbleBound(Octet(cc));
  }

  lemma NibbleBound(b: Byte)
    ensures Value(b) < 16 ==> b & 0x0F == b
  {
  }
}
