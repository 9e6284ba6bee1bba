/** The table-driven CRC-32 of `uimg.c`, and that it is the bitwise one. */
module CrcTable {
  import opened Ring
  import opened Crc

  const ROW_0: seq<bv32> := [
    0x00000000, 0x77073096, 0xee0e612c, 0x990951ba, 0x076dc419, 0x706af48f, 0xe963a535, 0x9e6495a3,
    0x0edb8832, 0x79dcb8a4, 0xe0d5e91e, 0x97d2d988, 0x09b64c2b, 0x7eb17cbd, 0xe7b82d07, 0x90bf1d91]
  const ROW_1: seq<bv32> := [
    0x1db71064, 0x6ab020f2, 0xf3b97148, 0x84be41de, 0x1adad47d, 0x6ddde4eb, 0xf4d4b551, 0x83d385c7,
    0x136c9856, 0x646ba8c0, 0xfd62f97a, 0x8a65c9ec, 0x14015c4f, 0x63066cd9, 0xfa0f3d63, 0x8d080df5]
  const ROW_2: seq<bv32> := [
    0x3b6e20c8, 0x4c69105e, 0xd56041e4, 0xa2677172, 0x3c03e4d1, 0x4b04d447, 0xd20d85fd, 0xa50ab56b,
    0x35b5a8fa, 0x42b2986c, 0xdbbbc9d6, 0xacbcf940, 0x32d86ce3, 0x45df5c75, 0xdcd60dcf, 0xabd13d59]
  const ROW_3: seq<bv32> := [
    0x26d930ac, 0x51de003a, 0xc8d75180, 0xbfd06116, 0x21b4f4b5, 0x56b3c423, 0xcfba9599, 0xb8bda50f,
    0x2802b89e, 0x5f058808, 0xc60cd9b2, 0xb10be924, 0x2f6f7c87, 0x58684c11, 0xc1611dab, 0xb6662d3d]
  const ROW_4: seq<bv32> := [
    0x76dc4190, 0x01db7106, 0x98d220bc, 0xefd5102a, 0x71b18589, 0x06b6b51f, 0x9fbfe4a5, 0xe8b8d433,
    0x7807c9a2, 0x0f00f934, 0x9609a88e, 0xe10e9818, 0x7f6a0dbb, 0x086d3d2d, 0x91646c97, 0xe6635c01]
  const ROW_5: seq<bv32> := [
    0x6b6b51f4, 0x1c6c6162, 0x856530d8, 0xf262004e, 0x6c0695ed, 0x1b01a57b, 0x8208f4c1, 0xf50fc457,
    0x65b0d9c6, 0x12b7e950, 0x8bbeb8ea, 0xfcb9887c, 0x62dd1ddf, 0x15da2d49, 0x8cd37cf3, 0xfbd44c65]
  const ROW_6: seq<bv32> := [
    0x4db26158, 0x3ab551ce, 0xa3bc0074, 0xd4bb30e2, 0x4adfa541, 0x3dd895d7, 0xa4d1c46d, 0xd3d6f4fb,
    0x4369e96a, 0x346ed9fc, 0xad678846, 0xda60b8d0, 0x44042d73, 0x33031de5, 0xaa0a4c5f, 0xdd0d7cc9]
  const ROW_7: seq<bv32> := [
    0x5005713c, 0x270241aa, 0xbe0b1010, 0xc90c2086, 0x5768b525, 0x206f85b3, 0xb966d409, 0xce61e49f,
    0x5edef90e, 0x29d9c998, 0xb0d09822, 0xc7d7a8b4, 0x59b33d17, 0x2eb40d81, 0xb7bd5c3b, 0xc0ba6cad]
  const ROW_8: seq<bv32> := [
    0xedb88320, 0x9abfb3b6, 0x03b6e20c, 0x74b1d29a, 0xead54739, 0x9dd277af, 0x04db2615, 0x73dc1683,
    0xe3630b12, 0x94643b84, 0x0d6d6a3e, 0x7a6a5aa8, 0xe40ecf0b, 0x9309ff9d, 0x0a00ae27, 0x7d079eb1]
  const ROW_9: seq<bv32> := [
    0xf00f9344, 0x8708a3d2, 0x1e01f268, 0x6906c2fe, 0xf762575d, 0x806567cb, 0x196c3671, 0x6e6b06e7,
    0xfed41b76, 0x89d32be0, 0x10da7a5a, 0x67dd4acc, 0xf9b9df6f, 0x8ebeeff9, 0x17b7be43, 0x60b08ed5]
  const ROW_A: seq<bv32> := [
    0xd6d6a3e8, 0xa1d1937e, 0x38d8c2c4, 0x4fdff252, 0xd1bb67f1, 0xa6bc5767, 0x3fb506dd, 0x48b2364b,
    0xd80d2bda, 0xaf0a1b4c, 0x36034af6, 0x41047a60, 0xdf60efc3, 0xa867df55, 0x316e8eef, 0x4669be79]
  const ROW_B: seq<bv32> := [
    0xcb61b38c, 0xbc66831a, 0x256fd2a0, 0x5268e236, 0xcc0c7795, 0xbb0b4703, 0x220216b9, 0x5505262f,
    0xc5ba3bbe, 0xb2bd0b28, 0x2bb45a92, 0x5cb36a04, 0xc2d7ffa7, 0xb5d0cf31, 0x2cd99e8b, 0x5bdeae1d]
  const ROW_C: seq<bv32> := [
    0x9b64c2b0, 0xec63f226, 0x756aa39c, 0x026d930a, 0x9c0906a9, 0xeb0e363f, 0x72076785, 0x05005713,
    0x95bf4a82, 0xe2b87a14, 0x7bb12bae, 0x0cb61b38, 0x92d28e9b, 0xe5d5be0d, 0x7cdcefb7, 0x0bdbdf21]
  const ROW_D: seq<bv32> := [
    0x86d3d2d4, 0xf1d4e242, 0x68ddb3f8, 0x1fda836e, 0x81be16cd, 0xf6b9265b, 0x6fb077e1, 0x18b74777,
    0x88085ae6, 0xff0f6a70, 0x66063bca, 0x11010b5c, 0x8f659eff, 0xf862ae69, 0x616bffd3, 0x166ccf45]
  const ROW_E: seq<bv32> := [
    0xa00ae278, 0xd70dd2ee, 0x4e048354, 0x3903b3c2, 0xa7672661, 0xd06016f7, 0x4969474d, 0x3e6e77db,
    0xaed16a4a, 0xd9d65adc, 0x40df0b66, 0x37d83bf0, 0xa9bcae53, 0xdebb9ec5, 0x47b2cf7f, 0x30b5ffe9]
  const ROW_F: seq<bv32> := [
    0xbdbdf21c, 0xcabac28a, 0x53b39330, 0x24b4a3a6, 0xbad03605, 0xcdd70693, 0x54de5729, 0x23d967bf,
    0xb3667a2e, 0xc4614ab8, 0x5d681b02, 0x2a6f2b94, 0xb40bbe37, 0xc30c8ea1, 0x5a05df1b, 0x2d02ef8d]

  const ROWS: seq<seq<bv32>> := [
    ROW_0, ROW_1, ROW_2, ROW_3, ROW_4, ROW_5, ROW_6, ROW_7,
    ROW_8, ROW_9, ROW_A, ROW_B, ROW_C, ROW_D, ROW_E, ROW_F]

  function Flatten(rows: seq<seq<bv32>>): seq<bv32> {
    if rows == [] then [] else rows[0] + Flatten(rows[1..])
  }

  /** The 256 entries of `crc_32_tab`. */
  const TABLE: seq<bv32> := Flatten(ROWS)

  lemma {:induction false} FlattenAt(rows: seq<seq<bv32>>, n: nat)
    requires forall h | 0 <= h < |rows| :: |rows[h]| == 16
    ensures |Flatten(rows)| == 16 * |rows|
    ensures n < 16 * |rows| ==> Flatten(rows)[n] == rows[n / 16][n % 16]
  {
    if rows != [] {
      FlattenAt(rows[1..], if n < 16 then 0 else n - 16);
      if 16 <= n < 16 * |rows| {
        assert (n - 16) / 16 == n / 16 - 1 && (n - 16) % 16 == n % 16;
      }
    }
  }

  // The entries ---------------------------------------------------------------------------------

  /** A row is its first entry combined with each entry of the first row. */
  ghost predicate Mixed(r: seq<bv32>) {
    && |r| == 16
    && r[0x0] == Xor(r[0], 0x00000000) && r[0x1] == Xor(r[0], 0x77073096)
    && r[0x2] == Xor(r[0], 0xee0e612c) && r[0x3] == Xor(r[0], 0x990951ba)
    && r[0x4] == Xor(r[0], 0x076dc419) && r[0x5] == Xor(r[0], 0x706af48f)
    && r[0x6] == Xor(r[0], 0xe963a535) && r[0x7] == Xor(r[0], 0x9e6495a3)
    && r[0x8] == Xor(r[0], 0x0edb8832) && r[0x9] == Xor(r[0], 0x79dcb8a4)
    && r[0xA] == Xor(r[0], 0xe0d5e91e) && r[0xB] == Xor(r[0], 0x97d2d988)
    && r[0xC] == Xor(r[0], 0x09b64c2b) && r[0xD] == Xor(r[0], 0x7eb17cbd)
    && r[0xE] == Xor(r[0], 0xe7b82d07) && r[0xF] == Xor(r[0], 0x90bf1d91)
  }

  lemma RowsMixed0()
    ensures Mixed(ROW_0) && Mixed(ROW_1) && Mixed(ROW_2) && Mixed(ROW_3)
  {
  }

  lemma RowsMixed4()
    ensures Mixed(ROW_4) && Mixed(ROW_5) && Mixed(ROW_6) && Mixed(ROW_7)
  {
  }

  lemma RowsMixed8()
    ensures Mixed(ROW_8) && Mixed(ROW_9) && Mixed(ROW_A) && Mixed(ROW_B)
  {
  }

  lemma RowsMixedC()
    ensures Mixed(ROW_C) && Mixed(ROW_D) && Mixed(ROW_E) && Mixed(ROW_F)
  {
  }

  lemma FirstRowBits()
    ensures Eight(0x0) == 0x00000000 && Eight(0x1) == 0x77073096
    ensures Eight(0x2) == 0xee0e612c && Eight(0x3) == 0x990951ba
    ensures Eight(0x4) == 0x076dc419 && Eight(0x5) == 0x706af48f
    ensures Eight(0x6) == 0xe963a535 && Eight(0x7) == 0x9e6495a3
    ensures Eight(0x8) == 0x0edb8832 && Eight(0x9) == 0x79dcb8a4
    ensures Eight(0xA) == 0xe0d5e91e && Eight(0xB) == 0x97d2d988
    ensures Eight(0xC) == 0x09b64c2b && Eight(0xD) == 0x7eb17cbd
    ensures Eight(0xE) == 0xe7b82d07 && Eight(0xF) == 0x90bf1d91
  {
  }

  lemma RowHeadBits()
    ensures Eight(0x00) == 0x00000000 && Eight(0x10) == 0x1db71064
    ensures Eight(0x20) == 0x3b6e20c8 && Eight(0x30) == 0x26d930ac
    ensures Eight(0x40) == 0x76dc4190 && Eight(0x50) == 0x6b6b51f4
    ensures Eight(0x60) == 0x4db26158 && Eight(0x70) == 0x5005713c
    ensures Eight(0x80) == 0xedb88320 && Eight(0x90) == 0xf00f9344
    ensures Eight(0xA0) == 0xd6d6a3e8 && Eight(0xB0) == 0xcb61b38c
    ensures Eight(0xC0) == 0x9b64c2b0 && Eight(0xD0) == 0x86d3d2d4
    ensures Eight(0xE0) == 0xa00ae278 && Eight(0xF0) == 0xbdbdf21c
  {
  }

  lemma FirstRowEntries()
    ensures ROW_0[0x0] == 0x00000000 && ROW_0[0x1] == 0x77073096 && ROW_0[0x2] == 0xee0e612c && ROW_0[0x3] == 0x990951ba
    ensures ROW_0[0x4] == 0x076dc419 && ROW_0[0x5] == 0x706af48f && ROW_0[0x6] == 0xe963a535 && ROW_0[0x7] == 0x9e6495a3
    ensures ROW_0[0x8] == 0x0edb8832 && ROW_0[0x9] == 0x79dcb8a4 && ROW_0[0xA] == 0xe0d5e91e && ROW_0[0xB] == 0x97d2d988
    ensures ROW_0[0xC] == 0x09b64c2b && ROW_0[0xD] == 0x7eb17cbd && ROW_0[0xE] == 0xe7b82d07 && ROW_0[0xF] == 0x90bf1d91
  {
  }

  lemma RowHeads()
    ensures ROWS[0x0][0] == 0x00000000 && ROWS[0x1][0] == 0x1db71064
    ensures ROWS[0x2][0] == 0x3b6e20c8 && ROWS[0x3][0] == 0x26d930ac
    ensures ROWS[0x4][0] == 0x76dc4190 && ROWS[0x5][0] == 0x6b6b51f4
    ensures ROWS[0x6][0] == 0x4db26158 && ROWS[0x7][0] == 0x5005713c
    ensures ROWS[0x8][0] == 0xedb88320 && ROWS[0x9][0] == 0xf00f9344
    ensures ROWS[0xA][0] == 0xd6d6a3e8 && ROWS[0xB][0] == 0xcb61b38c
    ensures ROWS[0xC][0] == 0x9b64c2b0 && ROWS[0xD][0] == 0x86d3d2d4
    ensures ROWS[0xE][0] == 0xa00ae278 && ROWS[0xF][0] == 0xbdbdf21c
  {
  }

  lemma FirstRowRight(z: Byte)
    requires z < 16
    ensures ROW_0[z as nat] == Eight(z as bv32)
  {
    FirstRowBits();
    FirstRowEntries();
    hide Eight;
    assert z == 0 || z == 1 || z == 2 || z == 3 || z == 4 || z == 5 || z == 6 || z == 7
           || z == 8 || z == 9 || z == 10 || z == 11 || z == 12 || z == 13 || z == 14 || z == 15;
  }

  lemma RowHeadRight(z: Byte)
    requires z < 16
    ensures ROWS[z as nat][0] == Eight((z as bv32) << 4)
  {
    RowHeadBits();
    RowHeads();
    hide Eight;
    assert z == 0 || z == 1 || z == 2 || z == 3 || z == 4 || z == 5 || z == 6 || z == 7
           || z == 8 || z == 9 || z == 10 || z == 11 || z == 12 || z == 13 || z == 14 || z == 15;
  }

  lemma MixedAt(r: seq<bv32>, l: nat)
    requires Mixed(r) && l < 16
    ensures |ROW_0| == 16 && r[l] == Xor(r[0], ROW_0[l])
  {
    FirstRowEntries();
    hide Xor;
  }

  lemma RowsAre(h: nat)
    requires h < 16
    ensures |ROWS| == 16 && Mixed(ROWS[h])
  {
    hide Mixed;
    RowsMixed0();
    RowsMixed4();
    RowsMixed8();
    RowsMixedC();
  }

  lemma Nibbles(y: Byte)
    ensures (y >> 4) < 16 && (y & 15) < 16
    ensures (y >> 4) as nat == y as nat / 16 && (y & 15) as nat == y as nat % 16
  {
  }

  lemma NibblesJoin(y: Byte)
    ensures Xor(((y >> 4) as bv32) << 4, (y & 15) as bv32) == y as bv32
  {
  }

  /** The table has 256 entries. */
  lemma TableSize()
    ensures |TABLE| == 256
  {
    hide Mixed;
    forall h | 0 <= h < 16 ensures |ROWS[h]| == 16 { RowsAre(h); RowSize(ROWS[h]); }
    FlattenAt(ROWS, 0);
  }

  lemma RowSize(r: seq<bv32>)
    requires Mixed(r)
    ensures |r| == 16
  {
  }

  /** All 256 entries are right: entry `y` is what eight bit steps make of `y`. */
  lemma TableRight(y: Byte)
    ensures |TABLE| == 256 && TABLE[y as nat] == Eight(y as bv32)
  {
    hide Eight, Mixed, Xor;
    var h, l := y as nat / 16, y as nat % 16;
    RowsAre(h);
    forall h | 0 <= h < 16 ensures |ROWS[h]| == 16 { RowsAre(h); RowSize(ROWS[h]); }
    FlattenAt(ROWS, y as nat);
    Nibbles(y);
    MixedAt(ROWS[h], l);
    RowHeadRight(y >> 4);
    FirstRowRight(y & 15);
    EightLinear(((y >> 4) as bv32) << 4, (y & 15) as bv32);
    NibblesJoin(y);
  }

  // The algorithm -------------------------------------------------------------------------------

  /** `UPDC32`: one byte by table lookup. */
  function Update(octet: Byte, crc: bv32): bv32
  {
    TableSize();
    Xor(TABLE[((crc ^ (octet as bv32)) & 0xFF) as nat], crc >> 8)
  }

  lemma IndexParts(octet: Byte, crc: bv32)
    ensures var x := Xor(crc, octet as bv32);
            && (LowByte(x) as Byte) as bv32 == LowByte(x) && LowByte(x) as nat == (LowByte(x) as Byte) as nat
            && Drop(x) == crc >> 8 && LowByte(x) == (crc ^ (octet as bv32)) & 0xFF
  {
  }

  /** A table lookup does the work of eight bit steps. */
  lemma UpdateIsByteStep(octet: Byte, crc: bv32)
    ensures Update(octet, crc) == ByteStep(crc, octet)
  {
    var x := Xor(crc, octet as bv32);
    IndexParts(octet, crc);
    hide Eight, Xor, LowByte, Drop;
    TableRight(LowByte(x) as Byte);
    EightSplits(x);
  }

  /** The loop of `crc32` by table lookups. */
  function TableRun(crc: bv32, data: seq<Byte>): bv32
    decreases data
  {
    if data == [] then crc else TableRun(Update(data[0], crc), data[1..])
  }

  /** For every message and every register, the table loop computes the bitwise CRC. */
  lemma {:induction false} TableRunIsBitwise(crc: bv32, data: seq<Byte>)
    ensures TableRun(crc, data) == Run(crc, data)
    decreases data
  {
    hide Update, ByteStep;
    if data != [] {
      UpdateIsByteStep(data[0], crc);
      TableRunIsBitwise(Update(data[0], crc), data[1..]);
    }
  }

  lemma {:induction false} TableRunSnoc(crc: bv32, data: seq<Byte>, b: Byte)
    ensures TableRun(crc, data + [b]) == Update(b, TableRun(crc, data))
    decreases data
  {
    hide Update;
    if data == [] {
      assert [] + [b] == [b] && [b][1..] == [];
      assert TableRun(Update(b, crc), []) == Update(b, crc);
    } else {
      assert (data + [b])[1..] == data[1..] + [b];
      TableRunSnoc(Update(data[0], crc), data[1..], b);
    }
  }

  /** A register kept between calls. */
  class Register {
    var value: bv32

    constructor (v: bv32)
      ensures value == v
    {
      value := v;
    }
  }

  /** `crc32`: the loop over the bytes, which continues from a given register and leaves the new one
      there, or starts afresh. */
  method ComputeCrc32(buf: seq<Byte>, reg: Register?) returns (crc: bv32)
    modifies reg
    ensures reg == null ==> crc == Crc32(buf)
    ensures reg != null ==> reg.value == Run(old(reg.value), buf) && crc == Complement(reg.value)
  {
    hide Update, Run, Complement;
    var oldcrc32 := if reg != null then reg.value else START;
    ghost var start := oldcrc32;
    var n := 0;
    while n < |buf|
      invariant 0 <= n <= |buf|
      invariant TableRun(start, buf[..n]) == oldcrc32
    {
      TableRunSnoc(start, buf[..n], buf[n]);
      assert buf[..n + 1] == buf[..n] + [buf[n]];
      oldcrc32 := Update(buf[n], oldcrc32);
      n := n + 1;
    }
    assert buf[..n] == buf;
    TableRunIsBitwise(start, buf);
    if reg != null {
      reg.value := oldcrc32;
    }
    crc := Complement(oldcrc32);
  }
}
