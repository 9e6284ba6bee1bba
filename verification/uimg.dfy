/** Packing and unpacking of images (`generate` and `extract` in `uimg.c`), step by step, on a map of
    partition files and an image held as bytes. */
module Uimg {
  import opened Ring
  import opened Words
  import opened UimgModel
  import Crc
  import CrcTable

  lemma TablesParts(parts: seq<Part>)
    requires Packed(parts)
    ensures var c, s, d := Pad(Flat(Sums(parts)), 80), Pad(Flat(Sizes(parts)), 80), Pad(Devs(parts), 20);
            Zeros(52) + Tables(parts) == Zeros(52) + c + (s + d + Zeros(20))
  {
    hide Flat, Sums, Sizes, Devs, Pad, Zeros;
  }

  lemma ListSizes(parts: seq<Part>)
    requires Packed(parts)
    ensures |Flat(Sums(parts))| == |Flat(Sizes(parts))| == 4 * |parts| && |Devs(parts)| == |parts| <= SLOTS
  {
  }

  lemma ListsGrow(parts: seq<Part>, p: Part)
    requires Packed(parts + [p])
    ensures Packed(parts) && 0 < |p.content| < WORD && p.dev < 256
    ensures Flat(Sums(parts + [p])) == Flat(Sums(parts)) + Big(Checksum(p.content))
    ensures Flat(Sizes(parts + [p])) == Flat(Sizes(parts)) + Big(|p.content|)
    ensures Devs(parts + [p]) == Devs(parts) + [Octet(p.dev)]
  {
    hide Flat, Big, Octet, Checksum;
    var q := parts + [p];
    assert forall k | 0 <= k < |parts| :: q[k] == parts[k];
    assert q[|parts|] == p;
    assert Sums(q) == Sums(parts) + [Checksum(p.content)];
    assert Sizes(q) == Sizes(parts) + [|p.content|];
    assert Devs(q) == Devs(parts) + [Octet(p.dev)];
    FlatSnoc(Sums(parts), Checksum(p.content));
    FlatSnoc(Sizes(parts), |p.content|);
  }

  /** The three stores for a packed partition. */
  lemma TablesGrow(parts: seq<Part>, p: Part)
    requires Packed(parts + [p])
    ensures Packed(parts) && 0 < |p.content| < WORD && p.dev < 256
    ensures var n := |parts|;
            var h1 := Patched(Zeros(52) + Tables(parts), 52 + 4 * n, Big(Checksum(p.content)));
            var h2 := Patched(h1, 132 + 4 * n, Big(|p.content|));
            Patched(h2, 212 + n, [Octet(p.dev)]) == Zeros(52) + Tables(parts + [p])
  {
    hide Packed, Flat, Big, Octet, Checksum, Sums, Sizes, Devs, Pad, Zeros, Patched, Tables;
    ListsGrow(parts, p);
    ListSizes(parts);
    ListSizes(parts + [p]);
    TablesParts(parts);
    TablesParts(parts + [p]);
    PadsGrow(Zeros(52), Flat(Sums(parts)), Flat(Sizes(parts)), Devs(parts), Zeros(20),
             Big(Checksum(p.content)), Big(|p.content|), [Octet(p.dev)]);
  }

  /** Writing behind what each of three padded areas holds. */
  lemma PadsGrow(z: seq<Byte>, c: seq<Byte>, s: seq<Byte>, d: seq<Byte>, e: seq<Byte>,
                 x: seq<Byte>, y: seq<Byte>, w: seq<Byte>)
    requires |c| + |x| <= 80 && |s| + |y| <= 80 && |d| + |w| <= 20
    ensures var h0 := z + Pad(c, 80) + (Pad(s, 80) + Pad(d, 20) + e);
            var h1 := Patched(h0, |z| + |c|, x);
            var h2 := Patched(h1, |z| + 80 + |s|, y);
            Patched(h2, |z| + 160 + |d|, w) == z + Pad(c + x, 80) + (Pad(s + y, 80) + Pad(d + w, 20) + e)
  {
    hide Pad, Patched;
    PatchPad(z, c, 80, Pad(s, 80) + Pad(d, 20) + e, x);
    Regroup(z, Pad(c + x, 80), Pad(s, 80), Pad(d, 20), e);
    PatchPad(z + Pad(c + x, 80), s, 80, Pad(d, 20) + e, y);
    Regroup(z, Pad(c + x, 80), Pad(s + y, 80), Pad(d, 20), e);
    PatchPad(z + Pad(c + x, 80) + Pad(s + y, 80), d, 20, e, w);
    Regroup(z, Pad(c + x, 80), Pad(s + y, 80), Pad(d + w, 20), e);
  }

  lemma Regroup(a: seq<Byte>, b: seq<Byte>, c: seq<Byte>, d: seq<Byte>, e: seq<Byte>)
    ensures a + b + (c + d + e) == (a + b) + c + (d + e)
    ensures (a + b) + c + (d + e) == (a + b + c) + d + e
  {
  }

  /** The checksum of a buffer. */
  method Sum32(buffer: seq<Byte>) returns (sum: Word)
    ensures sum == Checksum(buffer)
  {
    hide Crc.Crc32, Unsigned;
    var crc := CrcTable.ComputeCrc32(buffer, null);
    sum := Unsigned(crc);
  }

  /** What the three stores make of the header, each as the host performs it. */
  lemma EntryStored(parts: seq<Part>, p: Part, h0: seq<Byte>, h1: seq<Byte>, h2: seq<Byte>, h3: seq<Byte>)
    requires Packed(parts + [p]) && Packed(parts) && 0 < |p.content| < WORD && p.dev < 256 && |parts| < SLOTS
    requires |h0| == |h1| == |h2| == HEAD_SIZE
    requires h0 == Zeros(52) + Tables(parts)
    requires h1 == Patched(h0, 52 + 4 * |parts|, Little(Swap(Checksum(p.content))))
    requires h2 == Patched(h1, 132 + 4 * |parts|, Little(Swap(|p.content|)))
    requires h3 == Patched(h2, 212 + |parts|, [Octet(p.dev)])
    ensures h3 == Zeros(52) + Tables(parts + [p])
  {
    hide *;
    SwapStoresBig(Checksum(p.content));
    SwapStoresBig(|p.content|);
    TablesGrow(parts, p);
  }

  /** Enters a partition into the tables of the header. */
  method AddEntry(head: array<Byte>, partIdx: nat, dev: nat, content: seq<Byte>, ghost parts: seq<Part>)
    requires Packed(parts + [Part(dev, content)]) && Packed(parts) && partIdx == |parts|
    requires 0 < |content| < WORD && dev < 256 && partIdx < SLOTS
    requires head.Length == HEAD_SIZE && head[..] == Zeros(52) + Tables(parts)
    modifies head
    ensures head[..] == Zeros(52) + Tables(parts + [Part(dev, content)])
  {
    hide Packed, Big, Little, Swap, Octet, Patched, Tables, Zeros, Checksum;
    ghost var h0 := head[..];
    var sum := Sum32(content);
    StoreWord(head, 52 + 4 * partIdx, Swap(sum));
    ghost var h1 := head[..];
    StoreWord(head, 132 + 4 * partIdx, Swap(|content|));
    ghost var h2 := head[..];
    StoreByte(head, 212 + partIdx, Octet(dev));
    EntryStored(parts, Part(dev, content), h0, h1, h2, head[..]);
  }

  /** Writing over the first zeros behind `pre`. */
  lemma FillZeros(pre: seq<Byte>, x: seq<Byte>, m: nat, t: seq<Byte>)
    ensures Patched(pre + Zeros(|x| + m) + t, |pre|, x) == pre + x + Zeros(m) + t
  {
    assert pre + Zeros(|x| + m) + t == pre + Zeros(|x|) + (Zeros(m) + t);
    PatchMiddle(pre, Zeros(|x|), Zeros(m) + t, x);
    assert pre + x + (Zeros(m) + t) == pre + x + Zeros(m) + t;
  }

  /** The five fields that come first. */
  function Fixed(): (s: seq<Byte>)
    ensures |s| == 36
  {
    Big(MAGIC) + NAME + Big(UNKNOWN1) + Big(UNKNOWN2) + Big(VERSION)
  }

  lemma FixedGrows(t: seq<Byte>)
    ensures var h1 := Patched(Zeros(52) + t, 0, Big(MAGIC));
            var h2 := Patched(h1, 4, NAME);
            var h3 := Patched(h2, 24, Big(UNKNOWN1));
            var h4 := Patched(h3, 28, Big(UNKNOWN2));
            Patched(h4, 32, Big(VERSION)) == Fixed() + Zeros(16) + t
  {
    hide Big, Zeros, Patched;
    assert Zeros(52) + t == [] + Zeros(52) + t && [] + Big(MAGIC) == Big(MAGIC);
    FillZeros([], Big(MAGIC), 48, t);
    FillZeros(Big(MAGIC), NAME, 28, t);
    FillZeros(Big(MAGIC) + NAME, Big(UNKNOWN1), 24, t);
    FillZeros(Big(MAGIC) + NAME + Big(UNKNOWN1), Big(UNKNOWN2), 20, t);
    FillZeros(Big(MAGIC) + NAME + Big(UNKNOWN1) + Big(UNKNOWN2), Big(VERSION), 16, t);
  }

  /** The fields that depend on the partitions. */
  lemma CountsGrow(fixed: seq<Byte>, t: seq<Byte>, total: Word, count: Word, sum: Word, headSum: Word)
    requires |fixed| == 36
    ensures var h6 := Patched(fixed + Zeros(16) + t, 40, Big(count));
            var h7 := Patched(h6, 36, Big(total));
            var h8 := Patched(h7, 48, Big(sum));
            && h8 == fixed + Big(total) + Big(count) + Zeros(4) + (Big(sum) + t)
            && Patched(h8, 44, Big(headSum)) == fixed + Big(total) + Big(count) + Big(headSum) + (Big(sum) + t)
  {
    hide Big, Zeros, Patched;
    SixteenZeros();
    var a, b, c := Big(total), Big(count), Big(sum);
    var z := Zeros(4);
    assert fixed + Zeros(16) + t == (fixed + z) + z + (z + z + t);
    PatchMiddle(fixed + z, z, z + z + t, b);
    assert fixed + z + b + (z + z + t) == fixed + z + (b + z + z + t);
    PatchMiddle(fixed, z, b + z + z + t, a);
    assert fixed + a + (b + z + z + t) == (fixed + a + b + z) + z + t;
    PatchMiddle(fixed + a + b + z, z, t, c);
    assert (fixed + a + b + z) + c + t == (fixed + a + b) + z + (c + t);
    PatchMiddle(fixed + a + b, z, c + t, Big(headSum));
  }

  lemma SixteenZeros()
    ensures Zeros(16) == Zeros(4) + Zeros(4) + Zeros(4) + Zeros(4)
  {
  }

  /** Fills in the fixed fields, with the checksum field still at zero. */
  method FillFront(head: array<Byte>, partIdx: nat, size: Word, imgCrc: Word, ghost parts: seq<Part>)
    requires Packed(parts) && partIdx == |parts| && size == TotalSize(parts) && imgCrc == Checksum(Contents(parts))
    requires head.Length == HEAD_SIZE && head[..] == Zeros(52) + Tables(parts)
    modifies head
    ensures head[..] == Front(parts) + Zeros(4) + Back(parts)
  {
    FrontParts(parts);
    hide *;
    FixedGrows(Tables(parts));
    CountsGrow(Fixed(), Tables(parts), size, partIdx, imgCrc, 0);
    StoreBig(head, 0, MAGIC);
    StoreBytes(head, 4, NAME);
    StoreBig(head, 24, UNKNOWN1);
    StoreBig(head, 28, UNKNOWN2);
    StoreBig(head, 32, VERSION);
    StoreBig(head, 40, partIdx);
    StoreBig(head, 36, size);
    StoreBig(head, 48, imgCrc);
  }

  lemma FrontParts(parts: seq<Part>)
    requires Packed(parts)
    ensures |parts| < WORD && |NAME| == 20
    ensures Front(parts) == Fixed() + Big(TotalSize(parts)) + Big(|parts|)
    ensures Back(parts) == Big(Checksum(Contents(parts))) + Tables(parts)
  {
  }

  /** Completes the header with its own checksum. */
  method FillHeader(head: array<Byte>, partIdx: nat, size: Word, imgCrc: Word, ghost parts: seq<Part>)
    requires Packed(parts) && partIdx == |parts| && size == TotalSize(parts) && imgCrc == Checksum(Contents(parts))
    requires head.Length == HEAD_SIZE && head[..] == Zeros(52) + Tables(parts)
    modifies head
    ensures head[..] == Header(parts)
  {
    hide Front, Back, Big, Tables, Contents, Checksum, Packed, Patched, TotalSize;
    FillFront(head, partIdx, size, imgCrc, parts);
    var crc := Sum32(head[..]);
    PatchMiddle(Front(parts), Zeros(4), Back(parts), Big(crc));
    StoreBig(head, 44, crc);
  }

  lemma EmptyTables()
    ensures Packed([]) && Contents([]) == []
    ensures Zeros(HEAD_SIZE) == Zeros(52) + Tables([])
  {
  }

  /** What the loop over the devices has done when it stands at device `i`. */
  ghost predicate Progress(files: map<nat, seq<Byte>>, i: nat, parts: seq<Part>, head: seq<Byte>, body: seq<Byte>,
                           size: nat, imgCrc: Word, register: bv32)
  {
    && i <= DEVICES && Packed(parts)
    && Parts(files) == parts + PartsFrom(files, i, SLOTS - |parts|)
    && head == Zeros(52) + Tables(parts)
    && body == Contents(parts)
    && size == TotalSize(parts)
    && imgCrc == Checksum(body) && register == Crc.Run(Crc.START, body)
  }

  lemma ProgressStart(files: map<nat, seq<Byte>>)
    ensures Progress(files, 0, [], Zeros(HEAD_SIZE), [], HEAD_SIZE, 0, Crc.START)
  {
    EmptyTables();
    EmptyChecksum();
    hide Tables, Zeros;
  }

  lemma EmptyChecksum()
    ensures Checksum([]) == 0
  {
  }

  lemma ProgressSkip(files: map<nat, seq<Byte>>, i: nat, parts: seq<Part>, head: seq<Byte>, body: seq<Byte>,
                     size: nat, imgCrc: Word, register: bv32)
    requires Progress(files, i, parts, head, body, size, imgCrc, register) && i < DEVICES
    requires i !in files || !Usable(files[i])
    ensures Progress(files, i + 1, parts, head, body, size, imgCrc, register)
  {
    hide Packed, Tables, Contents, TotalSize, Checksum, Crc.Run, Usable;
  }

  lemma SizeAdds(a: nat, b: nat)
    ensures (a + b) % WORD == U32(a % WORD + b)
  {
    assert a == a / WORD * WORD + a % WORD;
    var c := a % WORD + b;
    ModuloUnique(a + b, WORD, a / WORD + c / WORD, c % WORD);
  }

  lemma PackablePart(i: nat, file: seq<Byte>)
    requires i < DEVICES && Usable(file)
    ensures 0 < |Packable(file)| == InSize(file) < WORD
  {
  }

  lemma PackedSnoc(parts: seq<Part>, p: Part)
    requires Packed(parts) && |parts| < SLOTS && p.dev < 256 && 0 < |p.content| < WORD
    ensures Packed(parts + [p])
  {
  }

  /** The sums of one more partition. */
  lemma SumsAdd(body: seq<Byte>, content: seq<Byte>, register: bv32)
    requires register == Crc.Run(Crc.START, body)
    ensures Crc.Run(register, content) == Crc.Run(Crc.START, body + content)
    ensures Unsigned(Crc.Complement(Crc.Run(register, content))) == Checksum(body + content)
  {
    hide Crc.Run, Crc.Complement, Unsigned;
    Crc.RunConcat(Crc.START, body, content);
  }

  lemma TotalAdds(parts: seq<Part>, p: Part)
    ensures TotalSize(parts + [p]) == U32(TotalSize(parts) + |p.content|)
    ensures Contents(parts + [p]) == Contents(parts) + p.content
  {
    ContentsSnoc(parts, p);
    SizeAdds(HEAD_SIZE + |Contents(parts)|, |p.content|);
  }

  lemma ProgressPack(files: map<nat, seq<Byte>>, i: nat, parts: seq<Part>, head: seq<Byte>, body: seq<Byte>,
                     size: nat, imgCrc: Word, register: bv32)
    requires Progress(files, i, parts, head, body, size, imgCrc, register)
    requires i < DEVICES && |parts| < SLOTS && i in files && Usable(files[i])
    ensures var content := Packable(files[i]);
            var q := parts + [Part(i, content)];
            && Packed(q) && 0 < |content| == InSize(files[i])
            && Progress(files, i + 1, q, Zeros(52) + Tables(q), body + content, U32(size + |content|),
                        Unsigned(Crc.Complement(Crc.Run(register, content))), Crc.Run(register, content))
  {
    hide Tables, Contents, Checksum, Crc.Run, Crc.Complement, Packed, TotalSize, U32, InSize, Usable, Packable, Zeros,
         Unsigned, PartsFrom, Parts;
    var content := Packable(files[i]);
    PackablePart(i, files[i]);
    PackedSnoc(parts, Part(i, content));
    TotalAdds(parts, Part(i, content));
    SumsAdd(body, content, register);
    PartsFromOne(files, i, SLOTS - |parts|);
    Reassociate(parts, Part(i, content), PartsFrom(files, i + 1, SLOTS - |parts| - 1));
  }

  lemma Reassociate(a: seq<Part>, p: Part, c: seq<Part>)
    ensures a + ([p] + c) == a + [p] + c
  {
  }

  lemma PartsFromOne(files: map<nat, seq<Byte>>, i: nat, room: nat)
    requires i < DEVICES && room > 0 && i in files && Usable(files[i])
    ensures PartsFrom(files, i, room) == [Part(i, Packable(files[i]))] + PartsFrom(files, i + 1, room - 1)
  {
  }

  lemma ProgressEnd(files: map<nat, seq<Byte>>, i: nat, parts: seq<Part>, head: seq<Byte>, body: seq<Byte>,
                    size: nat, imgCrc: Word, register: bv32)
    requires Progress(files, i, parts, head, body, size, imgCrc, register) && (i >= DEVICES || |parts| >= SLOTS)
    ensures parts == Parts(files) && Packed(parts)
    ensures head == Zeros(52) + Tables(parts) && body == Contents(parts)
    ensures size == TotalSize(parts) && imgCrc == Checksum(Contents(parts))
  {
    hide Tables, Contents, Checksum, Crc.Run, Packed, TotalSize, Parts, Zeros;
    assert PartsFrom(files, i, SLOTS - |parts|) == [];
  }

  /** Packs the partition files into an image: a header to be filled in later, the contents of the
      usable files in device order, and then the header. */
  method Generate(files: map<nat, seq<Byte>>) returns (image: seq<Byte>)
    ensures Packed(Parts(files)) && image == Image(Parts(files))
  {
    hide Progress, Header, Zeros, Tables, Contents, Checksum, Crc.Run, Crc.Crc32, Crc.Complement, Packed, TotalSize,
         Parts, PartsFrom, U32, InSize, Usable, Packable, Unsigned;
    var head := new Byte[HEAD_SIZE](_ => 0);
    ZerosAre(head[..]);
    var body: seq<Byte> := [];
    var imgCrc: Word := 0;
    var register := new CrcTable.Register(Crc.START);
    var partIdx := 0;
    var size: Word := HEAD_SIZE;
    ghost var parts: seq<Part> := [];
    ProgressStart(files);
    var i := 0;
    while i < DEVICES && partIdx < SLOTS
      invariant i <= DEVICES && partIdx == |parts| <= SLOTS
      invariant Progress(files, i, parts, head[..], body, size, imgCrc, register.value)
    {
      if i in files && Usable(files[i]) {
        var content := Packable(files[i]);
        ProgressPack(files, i, parts, head[..], body, size, imgCrc, register.value);
        ProgressHead(files, i, parts, head[..], body, size, imgCrc, register.value);
        AddEntry(head, partIdx, i, content, parts);
        var crc := CrcTable.ComputeCrc32(content, register);
        imgCrc := Unsigned(crc);
        body := body + content;
        partIdx := partIdx + 1;
        size := U32(size + InSize(files[i]));
        parts := parts + [Part(i, content)];
      } else {
        ProgressSkip(files, i, parts, head[..], body, size, imgCrc, register.value);
      }
      i := i + 1;
    }
    ProgressEnd(files, i, parts, head[..], body, size, imgCrc, register.value);
    FillHeader(head, partIdx, size, imgCrc, parts);
    image := head[..] + body;
  }

  lemma ProgressHead(files: map<nat, seq<Byte>>, i: nat, parts: seq<Part>, head: seq<Byte>, body: seq<Byte>,
                     size: nat, imgCrc: Word, register: bv32)
    requires Progress(files, i, parts, head, body, size, imgCrc, register)
    ensures Packed(parts) && head == Zeros(52) + Tables(parts)
  {
  }

  lemma ZerosAre(s: seq<Byte>)
    requires forall k | 0 <= k < |s| :: s[k] == 0
    ensures s == Zeros(|s|)
  {
  }

  /** One slot of the unpacker. */
  lemma UnpackSlot(head: seq<Byte>, rest: seq<Byte>, i: nat)
    requires |head| == HEAD_SIZE && i < SLOTS
    ensures var size := Field(head, 132 + 4 * i);
            if head[132 + 4 * i..136 + 4 * i] == Zeros(4) then UnpackFrom(head, rest, i) == Extracted([], true)
            else if size >= HALF_WORD || |rest| < size then UnpackFrom(head, rest, i) == Extracted([], false)
            else var r := UnpackFrom(head, rest[size..], i + 1);
              UnpackFrom(head, rest, i) == Extracted([Part(Value(head[212 + i]), rest[..size])] + r.parts, r.ok)
  {
    hide FromBig, Value, Zeros;
  }

  lemma UnpackEnd(head: seq<Byte>, rest: seq<Byte>)
    requires |head| == HEAD_SIZE
    ensures UnpackFrom(head, rest, SLOTS) == Extracted([], true)
  {
  }

  /** Unpacks an image: reads the header, and then for each filled slot as many bytes as it says, until
      the slots, the memory or the image end. */
  method Extract(image: seq<Byte>) returns (parts: seq<Part>, ok: bool)
    ensures Extracted(parts, ok) == Unpack(image)
  {
    hide FromBig, Value, Zeros, UnpackFrom;
    if |image| < HEAD_SIZE {
      return [], false;
    }
    var head := image[..HEAD_SIZE];
    var pos := HEAD_SIZE;
    parts := [];
    var i := 0;
    while i < SLOTS
      invariant i <= SLOTS && HEAD_SIZE <= pos <= |image|
      invariant var r := UnpackFrom(head, image[pos..], i);
                Unpack(image) == Extracted(parts + r.parts, r.ok)
      decreases SLOTS - i
    {
      UnpackSlot(head, image[pos..], i);
      if head[132 + 4 * i..136 + 4 * i] == Zeros(4) {
        return parts, true;
      }
      var psize := Field(head, 132 + 4 * i);
      if psize >= HALF_WORD {
        return parts, false;
      }
      if |image| - pos < psize {
        return parts, false;
      }
      parts, pos := ExtractPart(image, head, pos, i, psize, parts);
      i := i + 1;
    }
    ok := true;
    UnpackEnd(head, image[pos..]);
  }

  /** Reads one partition behind those already unpacked. */
  method ExtractPart(image: seq<Byte>, head: seq<Byte>, pos: nat, i: nat, psize: nat, parts: seq<Part>)
    returns (more: seq<Part>, next: nat)
    requires |head| == HEAD_SIZE && i < SLOTS && pos + psize <= |image|
    ensures next == pos + psize && image[pos..][psize..] == image[next..]
    ensures more == parts + [Part(Value(head[212 + i]), image[pos..][..psize])]
    ensures forall ps: seq<Part> :: more + ps == parts + ([Part(Value(head[212 + i]), image[pos..][..psize])] + ps)
  {
    hide Value;
    assert image[pos..][..psize] == image[pos..pos + psize];
    more := parts + [Part(Value(head[212 + i]), image[pos..pos + psize])];
    next := pos + psize;
  }
}
