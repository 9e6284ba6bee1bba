/** 32-bit words in memory: the byte order of the host, which is little-endian, and the big-endian
    order of image headers. */
module Words {
  import opened Ring

  /** A 32-bit unsigned word. */
  type Word = v: nat | v < WORD

  function Octet(n: nat): Byte
    requires n < 256
  {
    n as Byte
  }

  function Value(b: Byte): (n: nat)
    ensures n < 256
  {
    b as nat
  }

  /** The byte `n`, counted up from zero. */
  function Count(n: nat): Byte {
    if n == 0 then 0 else Count(n - 1) + 1
  }

  lemma {:induction false} ValueCount(n: nat)
    requires n < 256
    ensures Value(Count(n)) == n
  {
    if n > 0 {
      ValueCount(n - 1);
      ValueStep(Count(n - 1));
    }
  }

  lemma ValueStep(b: Byte)
    requires b < 255
    ensures Value(b) + 1 == Value(b + 1)
  {
  }

  lemma ValueOctet(n: nat)
    requires n < 256
    ensures Value(Octet(n)) == n
  {
    hide Count;
    ValueCount(n);
    OctetValue(Count(n));
  }

  lemma OctetValue(b: Byte)
    ensures Octet(Value(b)) == b
  {
  }

  /** A word as the host stores it. */
  function Little(v: Word): (s: seq<Byte>)
    ensures |s| == 4
  {
    [Octet(v % 256), Octet(v / 256 % 256), Octet(v / 256 / 256 % 256), Octet(v / 256 / 256 / 256)]
  }

  /** A word with its highest byte first. */
  function Big(v: Word): (s: seq<Byte>)
    ensures |s| == 4
  {
    [Octet(v / 256 / 256 / 256), Octet(v / 256 / 256 % 256), Octet(v / 256 % 256), Octet(v % 256)]
  }

  /** The number with these base-256 digits. */
  function FromDigits(a: nat, b: nat, c: nat, d: nat): (v: Word)
    requires a < 256 && b < 256 && c < 256 && d < 256
  {
    ((a * 256 + b) * 256 + c) * 256 + d
  }

  /** What the expression `BE_TO_HOST` makes of four bytes in memory. */
  function FromBig(s: seq<Byte>): Word
    requires |s| == 4
  {
    FromDigits(Value(s[0]), Value(s[1]), Value(s[2]), Value(s[3]))
  }

  /** The word that the host finds in four bytes of memory. */
  function Load(s: seq<Byte>): Word
    requires |s| == 4
  {
    FromDigits(Value(s[3]), Value(s[2]), Value(s[1]), Value(s[0]))
  }

  /** `BE_TO_HOST` of a word of the host. */
  function Swap(v: Word): Word {
    FromBig(Little(v))
  }

  lemma Digits(v: Word)
    ensures v / 256 / 256 / 256 < 256
    ensures FromDigits(v / 256 / 256 / 256, v / 256 / 256 % 256, v / 256 % 256, v % 256) == v
  {
  }

  lemma DigitsUnique(a: nat, b: nat, c: nat, d: nat)
    requires a < 256 && b < 256 && c < 256 && d < 256
    ensures var v := FromDigits(a, b, c, d);
            v % 256 == d && v / 256 % 256 == c && v / 256 / 256 % 256 == b && v / 256 / 256 / 256 == a
  {
  }

  /** The bytes of a word, by value. */
  lemma LittleValues(v: Word)
    ensures var s := Little(v);
            FromDigits(Value(s[3]), Value(s[2]), Value(s[1]), Value(s[0])) == v
    ensures var s := Big(v);
            FromDigits(Value(s[0]), Value(s[1]), Value(s[2]), Value(s[3])) == v
    ensures var s, t := Little(v), Big(v);
            s[0] == t[3] && s[1] == t[2] && s[2] == t[1] && s[3] == t[0]
  {
    hide Octet, Value, FromDigits;
    Digits(v);
    ValueOctet(v % 256);
    ValueOctet(v / 256 % 256);
    ValueOctet(v / 256 / 256 % 256);
    ValueOctet(v / 256 / 256 / 256);
  }

  lemma FromBigBig(v: Word)
    ensures FromBig(Big(v)) == v
  {
    hide Big, Little, Value, FromDigits;
    LittleValues(v);
  }

  lemma LoadLittle(v: Word)
    ensures Load(Little(v)) == v
  {
    hide Big, Little, Value, FromDigits;
    LittleValues(v);
  }

  lemma BigFromBig(s: seq<Byte>)
    requires |s| == 4
    ensures Big(FromBig(s)) == s
  {
    hide Octet, Value, FromDigits;
    DigitsUnique(Value(s[0]), Value(s[1]), Value(s[2]), Value(s[3]));
    OctetValue(s[0]);
    OctetValue(s[1]);
    OctetValue(s[2]);
    OctetValue(s[3]);
  }

  /** Storing a word that `BE_TO_HOST` was applied to leaves it in big-endian order. */
  lemma SwapStoresBig(v: Word)
    ensures Little(Swap(v)) == Big(v)
  {
    hide Big, Little, Value, FromDigits, FromBig;
    LittleValues(v);
    BigFromBig(Little(v));
    LittleValues(Swap(v));
    var s, t := Little(Swap(v)), Big(v);
    assert s == [s[0], s[1], s[2], s[3]] && t == [t[0], t[1], t[2], t[3]];
  }

  lemma NoDigits(a: nat, b: nat, c: nat, d: nat)
    requires a < 256 && b < 256 && c < 256 && d < 256
    ensures FromDigits(a, b, c, d) == 0 <==> a == b == c == d == 0
  {
  }

  lemma BigZero(s: seq<Byte>)
    requires |s| == 4
    ensures FromBig(s) == 0 <==> s == Zeros(4)
  {
    ZeroOctet();
    hide Value, Octet, FromDigits;
    NoDigits(Value(s[0]), Value(s[1]), Value(s[2]), Value(s[3]));
    OctetValue(s[0]);
    OctetValue(s[1]);
    OctetValue(s[2]);
    OctetValue(s[3]);
    assert s == [s[0], s[1], s[2], s[3]];
  }

  lemma ZeroOctet()
    ensures Value(0) == 0 && Octet(0) == 0
  {
  }

  /** Big-endian words one after the other. */
  function Flat(ws: seq<Word>): (s: seq<Byte>)
    ensures |s| == 4 * |ws|
  {
    if ws == [] then [] else Big(ws[0]) + Flat(ws[1..])
  }

  lemma {:induction false} FlatAt(ws: seq<Word>, i: nat)
    requires i < |ws|
    ensures Flat(ws)[4 * i..4 * i + 4] == Big(ws[i])
  {
    hide Big;
    if i > 0 {
      FlatAt(ws[1..], i - 1);
      var a, b := Big(ws[0]), Flat(ws[1..]);
      assert (a + b)[4 * i..4 * i + 4] == b[4 * (i - 1)..4 * (i - 1) + 4];
    } else {
      assert Flat(ws)[..4] == Big(ws[0]);
    }
  }

  lemma {:induction false} FlatSnoc(ws: seq<Word>, w: Word)
    ensures Flat(ws + [w]) == Flat(ws) + Big(w)
  {
    hide Big;
    if ws == [] {
      assert [] + [w] == [w] && [w][1..] == [];
      assert Flat([w]) == Big(w) + Flat([]);
    } else {
      assert (ws + [w])[1..] == ws[1..] + [w];
      FlatSnoc(ws[1..], w);
    }
  }

  function Zeros(n: nat): (s: seq<Byte>)
    ensures |s| == n
  {
    seq(n, _ => 0)
  }

  /** Bytes followed by zeros, up to a length of `n`. */
  function Pad(s: seq<Byte>, n: nat): (r: seq<Byte>)
    requires |s| <= n
    ensures |r| == n
  {
    s + Zeros(n - |s|)
  }

  /** Writing over the middle part. */
  lemma PatchMiddle(a: seq<Byte>, b: seq<Byte>, c: seq<Byte>, x: seq<Byte>)
    requires |x| == |b|
    ensures Patched(a + b + c, |a|, x) == a + x + c
  {
  }

  /** Writing right behind what a padded area holds. */
  lemma PatchPad(a: seq<Byte>, s: seq<Byte>, n: nat, c: seq<Byte>, x: seq<Byte>)
    requires |s| + |x| <= n
    ensures Patched(a + Pad(s, n) + c, |a| + |s|, x) == a + Pad(s + x, n) + c
  {
    var z, r := Zeros(|x|), Zeros(n - |s| - |x|);
    assert a + Pad(s, n) + c == (a + s) + z + (r + c);
    PatchMiddle(a + s, z, r + c, x);
    assert a + Pad(s + x, n) + c == (a + s) + x + (r + c);
  }

  // Stores --------------------------------------------------------------------------------------

  /** Four bytes of memory written as a word of the host. */
  method StoreWord(a: array<Byte>, at: nat, v: Word)
    requires at + 4 <= a.Length
    modifies a
    ensures a[..] == Patched(old(a[..]), at, Little(v))
  {
    var s := Little(v);
    hide Little;
    a[at], a[at + 1], a[at + 2], a[at + 3] := s[0], s[1], s[2], s[3];
  }

  /** A native store followed by the conversion in place. */
  method StoreBig(a: array<Byte>, at: nat, v: Word)
    requires at + 4 <= a.Length
    modifies a
    ensures a[..] == Patched(old(a[..]), at, Big(v))
  {
    hide Little, Big, Swap, Load;
    StoreWord(a, at, v);
    assert a[at..at + 4] == Little(v);
    LoadLittle(v);
    var w := Load(a[at..at + 4]);
    SwapStoresBig(v);
    StoreWord(a, at, Swap(w));
  }

  /** A copy of a whole string of bytes. */
  method StoreBytes(a: array<Byte>, at: nat, s: seq<Byte>)
    requires at + |s| <= a.Length
    modifies a
    ensures a[..] == Patched(old(a[..]), at, s)
  {
    hide Patched;
    ghost var was := a[..];
    PatchedNone(was, at);
    for k := 0 to |s|
      invariant a[..] == Patched(was, at, s[..k])
    {
      StoreByte(a, at + k, s[k]);
      PatchedTwice(was, at, s[..k], [s[k]]);
      assert s[..k + 1] == s[..k] + [s[k]];
    }
    assert s[..|s|] == s;
  }

  method StoreByte(a: array<Byte>, at: nat, b: Byte)
    requires at < a.Length
    modifies a
    ensures a[..] == Patched(old(a[..]), at, [b])
  {
    a[at] := b;
  }
}
