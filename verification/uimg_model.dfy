/** Unified images (`uimg.c`, `uimg.h`): which partitions are packed, the bytes of an image, and what
    unpacking finds in it. */
module UimgModel {
  import opened Ring
  import opened Words
  import Crc

  const HEAD_SIZE: nat := 252
  const SLOTS: nat := 20
  const DEVICES: nat := 99
  const MAGIC: Word := 0x5645_5233
  const UNKNOWN1: Word := 0x0077_0A15
  const UNKNOWN2: Word := 0x000D_1015
  const VERSION: Word := 3

  /** "Intel_Unified_Image" with its terminator. */
  const NAME: seq<Byte> := [
    0x49, 0x6E, 0x74, 0x65, 0x6C, 0x5F, 0x55, 0x6E, 0x69, 0x66,
    0x69, 0x65, 0x64, 0x5F, 0x49, 0x6D, 0x61, 0x67, 0x65, 0x00]

  /** A partition: its device number and its content. */
  datatype Part = Part(dev: nat, content: seq<Byte>)

  // Packing -------------------------------------------------------------------------------------

  /** The size of a file as kept in 32 bits. */
  function InSize(file: seq<Byte>): Word {
    |file| % WORD
  }

  /** Files that are skipped: those that look empty, or look like a failed seek. */
  predicate Usable(file: seq<Byte>) {
    InSize(file) != 0 && InSize(file) != WORD - 1
  }

  /** What is packed of a file. */
  function Packable(file: seq<Byte>): seq<Byte> {
    file[..InSize(file)]
  }

  /** Of a file, 4 GiB at a time are invisible: what is left of it decides whether it is packed, and is
      what is packed of it. */
  lemma UsableExact(file: seq<Byte>, gibs: nat, left: nat)
    requires |file| == 0x1_0000_0000 * gibs + left && left < 0x1_0000_0000
    ensures Usable(file) <==> left != 0 && left != 0xFFFF_FFFF
    ensures |Packable(file)| == left && Packable(file) <= file
  {
    ModuloUnique(|file|, WORD, gibs, left);
  }

  /** The partitions packed from device number `i` on, with `room` slots left. `files` holds the
      partition files that can be opened. */
  function PartsFrom(files: map<nat, seq<Byte>>, i: nat, room: nat): (parts: seq<Part>)
    ensures |parts| <= room
    decreases DEVICES - i
  {
    if i >= DEVICES || room == 0 then []
    else if i in files && Usable(files[i]) then
      [Part(i, Packable(files[i]))] + PartsFrom(files, i + 1, room - 1)
    else PartsFrom(files, i + 1, room)
  }

  function Parts(files: map<nat, seq<Byte>>): seq<Part> {
    PartsFrom(files, 0, SLOTS)
  }

  /** Partitions as a header can describe them. */
  ghost predicate Packed(parts: seq<Part>) {
    && |parts| <= SLOTS
    && forall k | 0 <= k < |parts| :: parts[k].dev < 256 && 0 < |parts[k].content| < WORD
  }

  lemma {:induction false} PartsFromPacked(files: map<nat, seq<Byte>>, i: nat, room: nat)
    ensures forall k | 0 <= k < |PartsFrom(files, i, room)| ::
              var p := PartsFrom(files, i, room)[k];
              && i <= p.dev < DEVICES && 0 < |p.content| < WORD
              && p.dev in files && Usable(files[p.dev]) && p.content == Packable(files[p.dev])
    decreases DEVICES - i
  {
    if i < DEVICES && room > 0 {
      if i in files && Usable(files[i]) {
        PartsFromPacked(files, i + 1, room - 1);
      } else {
        PartsFromPacked(files, i + 1, room);
      }
    }
  }

  ghost predicate Ascending(ps: seq<Part>) {
    forall j, k | 0 <= j < k < |ps| :: ps[j].dev < ps[k].dev
  }

  lemma {:induction false} PartsFromAscend(files: map<nat, seq<Byte>>, i: nat, room: nat)
    ensures Ascending(PartsFrom(files, i, room))
    decreases DEVICES - i
  {
    if i < DEVICES && room > 0 {
      if i in files && Usable(files[i]) {
        PartsFromAscend(files, i + 1, room - 1);
        PartsFromPacked(files, i + 1, room - 1);
      } else {
        PartsFromAscend(files, i + 1, room);
      }
    }
  }

  /** Device `d` is among the partitions, or the slots ran out before it. */
  ghost predicate Served(ps: seq<Part>, room: nat, d: nat) {
    (exists k :: 0 <= k < |ps| && ps[k].dev == d) || (|ps| == room && forall k | 0 <= k < |ps| :: ps[k].dev < d)
  }

  lemma {:induction false} PartsFromServe(files: map<nat, seq<Byte>>, i: nat, room: nat, d: nat)
    requires i <= d < DEVICES && d in files && Usable(files[d])
    ensures Served(PartsFrom(files, i, room), room, d)
    decreases DEVICES - i
  {
    hide Usable, Packable;
    var ps := PartsFrom(files, i, room);
    if room > 0 && i in files && Usable(files[i]) {
      if d == i {
        assert ps[0].dev == d;
      } else {
        PartsFromServe(files, i + 1, room - 1, d);
        ServedCons(ps[0], ps[1..], room - 1, d);
        assert ps == [ps[0]] + ps[1..];
      }
    } else if room > 0 {
      PartsFromServe(files, i + 1, room, d);
    }
  }

  lemma ServedCons(p: Part, ps: seq<Part>, room: nat, d: nat)
    requires Served(ps, room, d) && p.dev < d
    ensures Served([p] + ps, room + 1, d)
  {
    var all := [p] + ps;
    if exists k :: 0 <= k < |ps| && ps[k].dev == d {
      var k :| 0 <= k < |ps| && ps[k].dev == d;
      assert all[k + 1].dev == d;
    }
  }

  /** The partitions are the usable files in ascending device order: all of them, or else the first
      twenty. */
  ghost predicate FirstUsable(ps: seq<Part>, files: map<nat, seq<Byte>>) {
    && |ps| <= 20 && Ascending(ps)
    && (forall k | 0 <= k < |ps| ::
          && ps[k].dev < 99 && ps[k].dev in files && Usable(files[ps[k].dev])
          && ps[k].content == Packable(files[ps[k].dev]))
    && (forall d | d in files && d < 99 && Usable(files[d]) :: Served(ps, 20, d))
  }

  /** The packed partitions are those. */
  lemma PartsAreFirstUsable(files: map<nat, seq<Byte>>)
    ensures Packed(Parts(files)) && FirstUsable(Parts(files), files)
  {
    hide PartsFrom, Usable, Packable, Served, Ascending;
    PartsFromPacked(files, 0, SLOTS);
    PartsFromAscend(files, 0, SLOTS);
    forall d | d in files && d < DEVICES && Usable(files[d]) ensures Served(Parts(files), SLOTS, d) {
      PartsFromServe(files, 0, SLOTS, d);
    }
  }

  // The image -----------------------------------------------------------------------------------

  function Contents(parts: seq<Part>): seq<Byte> {
    if parts == [] then [] else parts[0].content + Contents(parts[1..])
  }

  lemma {:induction false} ContentsSnoc(parts: seq<Part>, p: Part)
    ensures Contents(parts + [p]) == Contents(parts) + p.content
  {
    if parts == [] {
      assert [] + [p] == [p] && [p][1..] == [];
      assert Contents([p]) == p.content + Contents([]);
    } else {
      assert (parts + [p])[1..] == parts[1..] + [p];
      ContentsSnoc(parts[1..], p);
    }
  }

  /** The value of a CRC register. */
  function Unsigned(crc: bv32): Word {
    crc as nat
  }

  function Checksum(data: seq<Byte>): Word {
    Unsigned(Crc.Crc32(data))
  }

  function Sums(parts: seq<Part>): seq<Word> {
    seq(|parts|, k requires 0 <= k < |parts| => Checksum(parts[k].content))
  }

  function Sizes(parts: seq<Part>): seq<Word>
    requires Packed(parts)
  {
    seq(|parts|, k requires 0 <= k < |parts| => |parts[k].content|)
  }

  function Devs(parts: seq<Part>): seq<Byte>
    requires Packed(parts)
  {
    seq(|parts|, k requires 0 <= k < |parts| => Octet(parts[k].dev))
  }

  /** The partition tables of the header: checksums, sizes, device numbers and an unused area. */
  function Tables(parts: seq<Part>): (s: seq<Byte>)
    requires Packed(parts)
    ensures |s| == 200
  {
    Pad(Flat(Sums(parts)), 4 * SLOTS) + Pad(Flat(Sizes(parts)), 4 * SLOTS) + Pad(Devs(parts), SLOTS) + Zeros(SLOTS)
  }

  /** The header size and all contents, in 32 bits. */
  function TotalSize(parts: seq<Part>): Word {
    (HEAD_SIZE + |Contents(parts)|) % WORD
  }

  /** The fields before the header checksum. */
  function Front(parts: seq<Part>): (s: seq<Byte>)
    requires Packed(parts)
    ensures |s| == 44
  {
    Big(MAGIC) + NAME + Big(UNKNOWN1) + Big(UNKNOWN2) + Big(VERSION) + Big(TotalSize(parts)) + Big(|parts|)
  }

  /** The fields behind it. */
  function Back(parts: seq<Part>): (s: seq<Byte>)
    requires Packed(parts)
    ensures |s| == 204
  {
    Big(Checksum(Contents(parts))) + Tables(parts)
  }

  /** The checksum of the header is computed with its own field at zero. */
  function HeaderSum(parts: seq<Part>): Word
    requires Packed(parts)
  {
    Checksum(Front(parts) + Zeros(4) + Back(parts))
  }

  function Header(parts: seq<Part>): (s: seq<Byte>)
    requires Packed(parts)
    ensures |s| == HEAD_SIZE
  {
    Front(parts) + Big(HeaderSum(parts)) + Back(parts)
  }

  function Image(parts: seq<Part>): seq<Byte>
    requires Packed(parts)
  {
    Header(parts) + Contents(parts)
  }

  /** The bytes of a header field. */
  function Field(image: seq<Byte>, at: nat): Word
    requires at + 4 <= |image|
  {
    FromBig(image[at..at + 4])
  }

  lemma ImageParts(parts: seq<Part>)
    requires Packed(parts)
    ensures var image := Image(parts);
            && image[..44] == Front(parts) && image[44..48] == Big(HeaderSum(parts))
            && image[48..HEAD_SIZE] == Back(parts) && image[HEAD_SIZE..] == Contents(parts)
            && image[..HEAD_SIZE] == Header(parts)
  {
    hide Front, Back, Contents, HeaderSum, Big;
  }

  /** The header checksum can be verified: setting its field to zero and recomputing it gives the
      stored value. */
  lemma HeaderChecksumVerifies(parts: seq<Part>)
    requires Packed(parts)
    ensures |Image(parts)| >= HEAD_SIZE
    ensures var head := Image(parts)[..HEAD_SIZE];
            Field(head, 44) == Checksum(Patched(head, 44, Zeros(4)))
  {
    hide Front, Back, Contents, HeaderSum, Big, FromBig, Checksum;
    ImageParts(parts);
    var head := Image(parts)[..HEAD_SIZE];
    assert head[44..48] == Big(HeaderSum(parts));
    FromBigBig(HeaderSum(parts));
    ZeroedHeader(parts);
  }

  lemma ZeroedHeader(parts: seq<Part>)
    requires Packed(parts)
    ensures Checksum(Patched(Header(parts), 44, Zeros(4))) == HeaderSum(parts)
  {
    hide Front, Back, Contents, Big, Checksum, Patched;
    PatchMiddle(Front(parts), Big(HeaderSum(parts)), Back(parts), Zeros(4));
  }

  lemma BigBytes(v: Word)
    requires v < 0x100
    ensures Big(v)[..3] == [0, 0, 0] && Value(Big(v)[3]) == v
  {
    ZeroOctet();
    ValueOctet(v);
  }

  /** The constant bytes of a header: "VER3", the name as a string with its terminator, two words of
      unknown meaning, and version 3. */
  lemma ConstantBytes(parts: seq<Part>)
    requires Packed(parts)
    ensures |Image(parts)| >= 252
    ensures var image := Image(parts);
            && image[..4] == Text("VER3") && image[4..24] == Text("Intel_Unified_Image") + [0]
            && image[24..32] == [0x00, 0x77, 0x0A, 0x15, 0x00, 0x0D, 0x10, 0x15] && image[32..36] == [0, 0, 0, 3]
            && image[40..43] == [0, 0, 0] && Value(image[43]) == |parts|
  {
    FixedWords();
    NameText();
    hide Back, Contents, HeaderSum, Big, Text;
    ImageParts(parts);
    BigBytes(|parts|);
    var image := Image(parts);
    var front := Front(parts);
    assert image[..44] == front;
    assert front[..4] == Big(MAGIC) && front[4..24] == NAME && front[24..28] == Big(UNKNOWN1);
    assert front[28..32] == Big(UNKNOWN2) && front[32..36] == Big(VERSION) && front[40..44] == Big(|parts|);
    assert image[24..32] == front[24..28] + front[28..32];
    assert image[40..43] == front[40..44][..3] && image[43] == front[40..44][3];
  }

  /** The code of an ASCII character. */
  function Ascii(c: char): Byte {
    if c as int < 128 then c as int as Byte else 0
  }

  function Text(s: string): (b: seq<Byte>)
    ensures |b| == |s|
  {
    seq(|s|, k requires 0 <= k < |s| => Ascii(s[k]))
  }

  lemma BigIs(v: Word, a: nat, b: nat, c: nat, d: nat)
    requires a < 256 && b < 256 && c < 256 && d < 256 && v == FromDigits(a, b, c, d)
    ensures Big(v) == [Octet(a), Octet(b), Octet(c), Octet(d)]
  {
    hide FromDigits, Octet;
    DigitsUnique(a, b, c, d);
  }

  lemma FixedOctets()
    ensures Octet(0x56) == 0x56 && Octet(0x45) == 0x45 && Octet(0x52) == 0x52 && Octet(0x33) == 0x33
    ensures Octet(0) == 0 && Octet(0x77) == 0x77 && Octet(0x0A) == 0x0A && Octet(0x15) == 0x15
    ensures Octet(0x0D) == 0x0D && Octet(0x10) == 0x10 && Octet(3) == 3
  {
  }

  lemma FixedWords()
    ensures Big(MAGIC) == Text("VER3") && Big(VERSION) == [0, 0, 0, 3]
    ensures Big(UNKNOWN1) == [0x00, 0x77, 0x0A, 0x15] && Big(UNKNOWN2) == [0x00, 0x0D, 0x10, 0x15]
  {
    hide Big, Octet;
    FixedOctets();
    MagicText();
    BigIs(MAGIC, 0x56, 0x45, 0x52, 0x33);
    BigIs(UNKNOWN1, 0x00, 0x77, 0x0A, 0x15);
    BigIs(UNKNOWN2, 0x00, 0x0D, 0x10, 0x15);
    BigIs(VERSION, 0, 0, 0, 3);
  }

  lemma MagicText()
    ensures Text("VER3") == [0x56, 0x45, 0x52, 0x33]
  {
  }

  lemma NameText()
    ensures NAME == Text("Intel_Unified_Image") + [0]
  {
  }

  /** The data checksum is that of everything behind the header, also when there is nothing. */
  lemma DataChecksumVerifies(parts: seq<Part>)
    requires Packed(parts)
    ensures |Image(parts)| >= HEAD_SIZE && Field(Image(parts), 48) == Checksum(Image(parts)[HEAD_SIZE..])
  {
    hide Front, Contents, HeaderSum, Big, FromBig, Checksum, Tables;
    ImageParts(parts);
    var image := Image(parts);
    assert Back(parts)[..4] == Big(Checksum(Contents(parts)));
    assert image[48..52] == image[48..HEAD_SIZE][..4];
    FromBigBig(Checksum(Contents(parts)));
  }

  /** The stored checksum of each partition is that of its content, and its size and device number are
      stored beside it. */
  lemma EntriesVerify(parts: seq<Part>, i: nat)
    requires Packed(parts) && i < |parts|
    ensures |Image(parts)| >= 252
    ensures Field(Image(parts), 52 + 4 * i) == Checksum(parts[i].content)
    ensures Field(Image(parts), 132 + 4 * i) == |parts[i].content| && Value(Image(parts)[212 + i]) == parts[i].dev
  {
    hide Front, Contents, HeaderSum, Big, FromBig, Checksum, Tables, Octet, Value;
    ImageParts(parts);
    HeaderEntries(parts, i);
    SumEntry(parts, i);
    var image, h := Image(parts), Header(parts);
    assert image[132 + 4 * i..136 + 4 * i] == h[132 + 4 * i..136 + 4 * i];
    assert image[52 + 4 * i..56 + 4 * i] == h[52 + 4 * i..56 + 4 * i];
    HeaderTail(parts);
    TailSlice(h, 52, 4 * i, 4 * i + 4);
    FromBigBig(Checksum(parts[i].content));
    FromBigBig(|parts[i].content|);
    ValueOctet(parts[i].dev);
  }

  lemma SumEntry(parts: seq<Part>, i: nat)
    requires Packed(parts) && i < |parts|
    ensures Tables(parts)[4 * i..4 * i + 4] == Big(Checksum(parts[i].content))
  {
    hide Flat, Big, Octet, Sizes, Devs, Checksum;
    var sums := Flat(Sums(parts));
    var t := Tables(parts);
    FlatAt(Sums(parts), i);
    assert t[..80] == Pad(sums, 80);
    assert t[4 * i..4 * i + 4] == t[..80][4 * i..4 * i + 4] == sums[4 * i..4 * i + 4];
  }

  /** The size field is the length of the image, exactly if that fits into 32 bits. */
  lemma SizeFieldExact(parts: seq<Part>)
    requires Packed(parts)
    ensures |Image(parts)| >= HEAD_SIZE
    ensures Field(Image(parts), 36) == |Image(parts)| % WORD
    ensures Field(Image(parts), 36) == |Image(parts)| <==> |Image(parts)| < WORD
  {
    hide Back, Contents, HeaderSum, Big, FromBig;
    ImageParts(parts);
    var image := Image(parts);
    assert Front(parts)[36..40] == Big(TotalSize(parts));
    assert image[36..40] == image[..44][36..40];
    FromBigBig(TotalSize(parts));
  }

  /** Damage to the data within four consecutive bytes shows in the data checksum. */
  lemma DataDamageShows(parts: seq<Part>, damaged: seq<Byte>, k: nat)
    requires Packed(parts) && |damaged| == |Image(parts)| && damaged != Image(parts)
    requires HEAD_SIZE <= k && forall i | 0 <= i < |damaged| && !(k <= i < k + 4) :: damaged[i] == Image(parts)[i]
    ensures Field(damaged, 48) != Checksum(damaged[HEAD_SIZE..])
  {
    hide Image, Checksum, FromBig, Front, Back;
    DataChecksumVerifies(parts);
    var image := Image(parts);
    var a, b := image[HEAD_SIZE..], damaged[HEAD_SIZE..];
    forall i | 0 <= i < |a| && !(k - HEAD_SIZE <= i < k - HEAD_SIZE + 4) ensures a[i] == b[i] {
      assert a[i] == image[HEAD_SIZE + i] && b[i] == damaged[HEAD_SIZE + i];
    }
    assert image[48..52] == damaged[48..52];
    assert image[..HEAD_SIZE] == damaged[..HEAD_SIZE];
    assert image == image[..HEAD_SIZE] + a && damaged == damaged[..HEAD_SIZE] + b;
    Crc.WindowDetected(a, b, k - HEAD_SIZE);
    ChecksumInjective(a, b);
  }

  lemma ChecksumInjective(a: seq<Byte>, b: seq<Byte>)
    requires Crc.Crc32(a) != Crc.Crc32(b)
    ensures Checksum(a) != Checksum(b)
  {
    hide Crc.Crc32;
    var u, v := Crc.Crc32(a), Crc.Crc32(b);
    assert (u as nat) as bv32 == u && (v as nat) as bv32 == v;
  }

  // Unpacking -----------------------------------------------------------------------------------

  /** What unpacking writes, and whether it gets to the end. */
  datatype Extracted = Extracted(parts: seq<Part>, ok: bool)

  /** Unpacking from slot `i` on, with `rest` still unread. A size with the sign bit set is negative
      to the unpacker, and no memory can be had for it. */
  function UnpackFrom(head: seq<Byte>, rest: seq<Byte>, i: nat): Extracted
    requires |head| == HEAD_SIZE
    decreases SLOTS - i
  {
    if i >= SLOTS || head[132 + 4 * i..136 + 4 * i] == Zeros(4) then Extracted([], true)
    else
      var size := Field(head, 132 + 4 * i);
      if size >= HALF_WORD || |rest| < size then Extracted([], false)
      else
        var r := UnpackFrom(head, rest[size..], i + 1);
        Extracted([Part(Value(head[212 + i]), rest[..size])] + r.parts, r.ok)
  }

  function Unpack(image: seq<Byte>): Extracted {
    if |image| < HEAD_SIZE then Extracted([], false)
    else UnpackFrom(image[..HEAD_SIZE], image[HEAD_SIZE..], 0)
  }

  /** What unpacking finds behind a header from slot `i` on, whatever the bytes are: the contents lie end
      to end, each with the size and the device number of its slot. It gets to the end if it has seen all
      slots or an empty one, and stops short at a size that is negative or goes beyond the image. */
  ghost predicate Unpacked(head: seq<Byte>, rest: seq<Byte>, i: nat, r: Extracted)
    requires |head| == 252
  {
    var n := i + |r.parts|;
    && n <= 20
    && (forall k | 0 <= k < |r.parts| :: SlotHolds(head, i + k, r.parts[k]))
    && Contents(r.parts) <= rest
    && if r.ok then n == 20 || SizeAt(head, n) == 0
       else n < 20 && (SizeAt(head, n) >= 0x8000_0000 || SizeAt(head, n) > |rest| - |Contents(r.parts)|)
  }

  function SizeAt(head: seq<Byte>, k: nat): Word
    requires |head| == 252 && k < 20
  {
    Field(head, 132 + 4 * k)
  }

  predicate SlotHolds(head: seq<Byte>, k: nat, p: Part)
    requires |head| == 252 && k < 20
  {
    0 < |p.content| == SizeAt(head, k) < 0x8000_0000 && p.dev == Value(head[212 + k])
  }

  lemma {:induction false} UnpackFromExact(head: seq<Byte>, rest: seq<Byte>, i: nat)
    requires |head| == HEAD_SIZE && i <= SLOTS
    ensures Unpacked(head, rest, i, UnpackFrom(head, rest, i))
    decreases SLOTS - i
  {
    hide FromBig, Value;
    if i < SLOTS {
      BigZero(head[132 + 4 * i..136 + 4 * i]);
      var size := SizeAt(head, i);
      if 0 < size < HALF_WORD && size <= |rest| {
        UnpackFromExact(head, rest[size..], i + 1);
        UnpackedCons(head, rest, i, UnpackFrom(head, rest[size..], i + 1));
      }
    }
  }

  lemma UnpackedCons(head: seq<Byte>, rest: seq<Byte>, i: nat, r: Extracted)
    requires |head| == HEAD_SIZE && i < SLOTS && 0 < SizeAt(head, i) < HALF_WORD && SizeAt(head, i) <= |rest|
    requires Unpacked(head, rest[SizeAt(head, i)..], i + 1, r)
    ensures var p := Part(Value(head[212 + i]), rest[..SizeAt(head, i)]);
            Unpacked(head, rest, i, Extracted([p] + r.parts, r.ok))
  {
    hide SizeAt, Value;
    var size := SizeAt(head, i);
    var p := Part(Value(head[212 + i]), rest[..size]);
    var all := [p] + r.parts;
    assert all[1..] == r.parts && Contents(all) == p.content + Contents(r.parts);
    assert rest == rest[..size] + rest[size..];
    forall k | 0 <= k < |all| ensures SlotHolds(head, i + k, all[k]) {
      if k > 0 {
        assert all[k] == r.parts[k - 1] && i + 1 + (k - 1) == i + k;
      }
    }
  }

  /** That is what unpacking makes of any bytes at all. */
  lemma UnpackExact(image: seq<Byte>)
    ensures if |image| < 252 then Unpack(image) == Extracted([], false)
            else Unpacked(image[..252], image[252..], 0, Unpack(image))
  {
    hide UnpackFrom, Unpacked;
    if |image| >= HEAD_SIZE {
      UnpackFromExact(image[..HEAD_SIZE], image[HEAD_SIZE..], 0);
    }
  }

  /** The size and device entries of the tables. */
  lemma SlotEntries(parts: seq<Part>, i: nat)
    requires Packed(parts) && i < SLOTS
    ensures var t := Tables(parts);
            && t[80 + 4 * i..84 + 4 * i] == (if i < |parts| then Big(|parts[i].content|) else Zeros(4))
            && (i < |parts| ==> t[160 + i] == Octet(parts[i].dev))
  {
    hide Flat, Big, Octet, Sums;
    var sizes := Flat(Sizes(parts));
    var t := Tables(parts);
    assert t[80..160] == Pad(sizes, 80);
    assert t[80 + 4 * i..84 + 4 * i] == t[80..160][4 * i..4 * i + 4];
    if i < |parts| {
      FlatAt(Sizes(parts), i);
      assert Pad(sizes, 80)[4 * i..4 * i + 4] == sizes[4 * i..4 * i + 4];
      assert t[160..180] == Pad(Devs(parts), SLOTS);
      assert t[160 + i] == t[160..180][i];
    } else {
      assert Pad(sizes, 80)[4 * i..4 * i + 4] == Zeros(4);
    }
  }

  lemma HeaderEntries(parts: seq<Part>, i: nat)
    requires Packed(parts) && i < SLOTS
    ensures var h := Header(parts);
            && h[132 + 4 * i..136 + 4 * i] == (if i < |parts| then Big(|parts[i].content|) else Zeros(4))
            && (i < |parts| ==> h[212 + i] == Octet(parts[i].dev))
  {
    hide Front, Big, Octet, HeaderSum, Tables;
    SlotEntries(parts, i);
    var h := Header(parts);
    HeaderTail(parts);
    TailSlice(h, 52, 80 + 4 * i, 84 + 4 * i);
    assert h[212 + i] == h[52..][160 + i];
  }

  lemma HeaderTail(parts: seq<Part>)
    requires Packed(parts)
    ensures Header(parts)[52..] == Tables(parts)
  {
    hide Front, Big, HeaderSum, Tables;
  }

  lemma TailSlice(s: seq<Byte>, k: nat, a: nat, b: nat)
    requires k <= |s| && a <= b <= |s| - k
    ensures s[k..][a..b] == s[k + a..k + b]
  {
  }

  ghost predicate AllSmall(parts: seq<Part>) {
    forall k | 0 <= k < |parts| :: |parts[k].content| < HALF_WORD
  }

  lemma {:induction false} UnpackTail(parts: seq<Part>, i: nat)
    requires Packed(parts) && i <= |parts|
    ensures var r := UnpackFrom(Header(parts), Contents(parts[i..]), i);
            && (AllSmall(parts[i..]) ==> r == Extracted(parts[i..], true))
            && (!AllSmall(parts[i..]) ==> !r.ok)
    decreases |parts| - i
  {
    hide Header, Octet, Value, Big, FromBig;
    if i < SLOTS {
      HeaderEntries(parts, i);
    }
    if i < |parts| {
      var p := parts[i];
      UnpackTail(parts, i + 1);
      FromBigBig(|p.content|);
      BigZero(Big(|p.content|));
      ValueOctet(p.dev);
      var rest := parts[i..];
      assert rest[0] == p && rest[1..] == parts[i + 1..] && rest == [p] + rest[1..];
      assert Contents(rest)[..|p.content|] == p.content && Contents(rest)[|p.content|..] == Contents(rest[1..]);
      assert AllSmall(rest) <==> |p.content| < HALF_WORD && AllSmall(rest[1..]);
    }
  }

  /** Unpacking a packed image yields exactly the packed partitions, if and only if every one of them
      is smaller than 2 GiB. */
  lemma RoundTripExact(parts: seq<Part>)
    requires Packed(parts)
    ensures Unpack(Image(parts)) == Extracted(parts, true)
            <==> forall k | 0 <= k < |parts| :: |parts[k].content| < HALF_WORD
  {
    hide Header, Contents, UnpackFrom;
    ImageParts(parts);
    UnpackTail(parts, 0);
    assert parts[0..] == parts;
  }

  /** The devices of ascending partitions are as many as the partitions. */
  lemma {:induction false} DevicesCount(ps: seq<Part>)
    requires Ascending(ps)
    ensures |set k | 0 <= k < |ps| :: ps[k].dev| == |ps|
  {
    var devs := set k | 0 <= k < |ps| :: ps[k].dev;
    if ps == [] {
      assert devs == {};
    } else {
      var n := |ps| - 1;
      DevicesCount(ps[..n]);
      assert devs == (set k | 0 <= k < n :: ps[..n][k].dev) + {ps[n].dev};
    }
  }

  /** Whatever files there are: unpacking the image packed from them gets to the end, and then has
      exactly the first twenty usable ones, if and only if each of those is smaller than 2 GiB. */
  lemma FilesRoundTrip(files: map<nat, seq<Byte>>)
    ensures Packed(Parts(files))
    ensures var r := Unpack(Image(Parts(files)));
            r.ok && FirstUsable(r.parts, files)
            <==> forall k | 0 <= k < |Parts(files)| :: |Parts(files)[k].content| < HALF_WORD
  {
    PartsAreFirstUsable(files);
    hide Parts, Image, Unpack, FirstUsable;
    UnpackWhole(Parts(files));
  }

  /** Unpacking gets to the end exactly if no partition is too large, and then has them all. */
  lemma UnpackWhole(parts: seq<Part>)
    requires Packed(parts)
    ensures Unpack(Image(parts)).ok <==> AllSmall(parts)
    ensures AllSmall(parts) ==> Unpack(Image(parts)).parts == parts
  {
    hide Header, Contents, UnpackFrom, AllSmall;
    ImageParts(parts);
    UnpackTail(parts, 0);
    assert parts[0..] == parts;
  }

  /** So a directory of at most twenty partition files, none of them empty or of 2 GiB or more, comes
      back from packing and unpacking as it was. */
  lemma DirectoryRoundTrip(files: map<nat, seq<Byte>>)
    requires |files| <= 20 && forall d | d in files :: d < 99 && 0 < |files[d]| < HALF_WORD
    ensures Packed(Parts(files))
    ensures var r := Unpack(Image(Parts(files)));
            && r.ok
            && (forall k | 0 <= k < |r.parts| :: r.parts[k].dev in files && r.parts[k].content == files[r.parts[k].dev])
            && (forall d | d in files :: Part(d, files[d]) in r.parts)
  {
    PartsAreFirstUsable(files);
    var ps := Parts(files);
    hide Parts, Image, Unpack, Served, Usable, Ascending;
    forall d | d in files ensures Part(d, files[d]) in ps {
      SmallUsable(files[d]);
      assert Served(ps, SLOTS, d);
      ServedFits(files, ps, d);
    }
    forall k | 0 <= k < |ps| ensures ps[k].content == files[ps[k].dev] {
      SmallUsable(files[ps[k].dev]);
    }
    UnpackWhole(ps);
  }

  lemma SmallUsable(file: seq<Byte>)
    requires 0 < |file| < HALF_WORD
    ensures Usable(file) && Packable(file) == file
  {
  }

  lemma ServedFits(files: map<nat, seq<Byte>>, ps: seq<Part>, d: nat)
    requires d in files && |files| <= SLOTS && Served(ps, SLOTS, d) && 0 < |files[d]| < HALF_WORD
    requires Ascending(ps)
    requires forall k | 0 <= k < |ps| :: ps[k].dev in files && ps[k].content == Packable(files[ps[k].dev])
    ensures Part(d, files[d]) in ps
  {
    SmallUsable(files[d]);
    hide Usable, Packable;
    if k :| 0 <= k < |ps| && ps[k].dev == d {
      assert ps[k] == Part(d, files[d]);
    } else {
      var devs := set k | 0 <= k < |ps| :: ps[k].dev;
      DevicesCount(ps);
      SubsetCount(devs + {d}, files.Keys);
      assert false;
    }
  }

  lemma {:induction false} SubsetCount(a: set<nat>, b: set<nat>)
    requires a <= b
    ensures |a| <= |b|
  {
    if x :| x in a {
      SubsetCount(a - {x}, b - {x});
    }
  }
}
