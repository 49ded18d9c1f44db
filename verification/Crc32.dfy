/** GetHashCode of stage/core/Random.h: a table-driven CRC-32, against the bit-serial
    definition (RFC 1952 section 8: reflected polynomial 0xEDB88320, register and result
    complemented). */
module Crc32 {
  type Octet = bv8
  type Word = bv32

  const POLYNOMIAL: Word := 0xEDB88320
  const ALL_ONES: Word := 0xFFFFFFFF

  // ---------------------------------------------------------------- bit-serial definition

  /** One bit of division by the polynomial. */
  function BitStep(r: Word): Word {
    if r & 1 == 1 then (r >> 1) ^ POLYNOMIAL else r >> 1
  }

  function EightSteps(r: Word): Word {
    BitStep(BitStep(BitStep(BitStep(BitStep(BitStep(BitStep(BitStep(r))))))))
  }

  /** Exclusive or, as a function that proofs may leave closed. */
  function Xor(a: Word, b: Word): Word {
    a ^ b
  }

  function Widen(b: Octet): Word {
    b as Word
  }

  /** The register after one more byte, bit by bit. */
  function ByteStep(r: Word, b: Octet): Word {
    EightSteps(Xor(r, Widen(b)))
  }

  function Register(r: Word, s: seq<Octet>): Word
    decreases |s|
  {
    if s == [] then r else Register(ByteStep(r, s[0]), s[1..])
  }

  /** CRC-32 by definition. */
  function Crc(s: seq<Octet>): Word {
    Xor(Register(ALL_ONES, s), ALL_ONES)
  }

  // ---------------------------------------------------------------- the table

  const ROW_0: seq<Word> := [
    0x0, 0x77073096, 0xee0e612c, 0x990951ba, 0x76dc419, 0x706af48f, 0xe963a535, 0x9e6495a3,
    0xedb8832, 0x79dcb8a4, 0xe0d5e91e, 0x97d2d988, 0x9b64c2b, 0x7eb17cbd, 0xe7b82d07, 0x90bf1d91]
  const ROW_1: seq<Word> := [
    0x1db71064, 0x6ab020f2, 0xf3b97148, 0x84be41de, 0x1adad47d, 0x6ddde4eb, 0xf4d4b551, 0x83d385c7,
    0x136c9856, 0x646ba8c0, 0xfd62f97a, 0x8a65c9ec, 0x14015c4f, 0x63066cd9, 0xfa0f3d63, 0x8d080df5]
  const ROW_2: seq<Word> := [
    0x3b6e20c8, 0x4c69105e, 0xd56041e4, 0xa2677172, 0x3c03e4d1, 0x4b04d447, 0xd20d85fd, 0xa50ab56b,
    0x35b5a8fa, 0x42b2986c, 0xdbbbc9d6, 0xacbcf940, 0x32d86ce3, 0x45df5c75, 0xdcd60dcf, 0xabd13d59]
  const ROW_3: seq<Word> := [
    0x26d930ac, 0x51de003a, 0xc8d75180, 0xbfd06116, 0x21b4f4b5, 0x56b3c423, 0xcfba9599, 0xb8bda50f,
    0x2802b89e, 0x5f058808, 0xc60cd9b2, 0xb10be924, 0x2f6f7c87, 0x58684c11, 0xc1611dab, 0xb6662d3d]
  const ROW_4: seq<Word> := [
    0x76dc4190, 0x1db7106, 0x98d220bc, 0xefd5102a, 0x71b18589, 0x6b6b51f, 0x9fbfe4a5, 0xe8b8d433,
    0x7807c9a2, 0xf00f934, 0x9609a88e, 0xe10e9818, 0x7f6a0dbb, 0x86d3d2d, 0x91646c97, 0xe6635c01]
  const ROW_5: seq<Word> := [
    0x6b6b51f4, 0x1c6c6162, 0x856530d8, 0xf262004e, 0x6c0695ed, 0x1b01a57b, 0x8208f4c1, 0xf50fc457,
    0x65b0d9c6, 0x12b7e950, 0x8bbeb8ea, 0xfcb9887c, 0x62dd1ddf, 0x15da2d49, 0x8cd37cf3, 0xfbd44c65]
  const ROW_6: seq<Word> := [
    0x4db26158, 0x3ab551ce, 0xa3bc0074, 0xd4bb30e2, 0x4adfa541, 0x3dd895d7, 0xa4d1c46d, 0xd3d6f4fb,
    0x4369e96a, 0x346ed9fc, 0xad678846, 0xda60b8d0, 0x44042d73, 0x33031de5, 0xaa0a4c5f, 0xdd0d7cc9]
  const ROW_7: seq<Word> := [
    0x5005713c, 0x270241aa, 0xbe0b1010, 0xc90c2086, 0x5768b525, 0x206f85b3, 0xb966d409, 0xce61e49f,
    0x5edef90e, 0x29d9c998, 0xb0d09822, 0xc7d7a8b4, 0x59b33d17, 0x2eb40d81, 0xb7bd5c3b, 0xc0ba6cad]
  const ROW_8: seq<Word> := [
    0xedb88320, 0x9abfb3b6, 0x3b6e20c, 0x74b1d29a, 0xead54739, 0x9dd277af, 0x4db2615, 0x73dc1683,
    0xe3630b12, 0x94643b84, 0xd6d6a3e, 0x7a6a5aa8, 0xe40ecf0b, 0x9309ff9d, 0xa00ae27, 0x7d079eb1]
  const ROW_9: seq<Word> := [
    0xf00f9344, 0x8708a3d2, 0x1e01f268, 0x6906c2fe, 0xf762575d, 0x806567cb, 0x196c3671, 0x6e6b06e7,
    0xfed41b76, 0x89d32be0, 0x10da7a5a, 0x67dd4acc, 0xf9b9df6f, 0x8ebeeff9, 0x17b7be43, 0x60b08ed5]
  const ROW_A: seq<Word> := [
    0xd6d6a3e8, 0xa1d1937e, 0x38d8c2c4, 0x4fdff252, 0xd1bb67f1, 0xa6bc5767, 0x3fb506dd, 0x48b2364b,
    0xd80d2bda, 0xaf0a1b4c, 0x36034af6, 0x41047a60, 0xdf60efc3, 0xa867df55, 0x316e8eef, 0x4669be79]
  const ROW_B: seq<Word> := [
    0xcb61b38c, 0xbc66831a, 0x256fd2a0, 0x5268e236, 0xcc0c7795, 0xbb0b4703, 0x220216b9, 0x5505262f,
    0xc5ba3bbe, 0xb2bd0b28, 0x2bb45a92, 0x5cb36a04, 0xc2d7ffa7, 0xb5d0cf31, 0x2cd99e8b, 0x5bdeae1d]
  const ROW_C: seq<Word> := [
    0x9b64c2b0, 0xec63f226, 0x756aa39c, 0x26d930a, 0x9c0906a9, 0xeb0e363f, 0x72076785, 0x5005713,
    0x95bf4a82, 0xe2b87a14, 0x7bb12bae, 0xcb61b38, 0x92d28e9b, 0xe5d5be0d, 0x7cdcefb7, 0xbdbdf21]
  const ROW_D: seq<Word> := [
    0x86d3d2d4, 0xf1d4e242, 0x68ddb3f8, 0x1fda836e, 0x81be16cd, 0xf6b9265b, 0x6fb077e1, 0x18b74777,
    0x88085ae6, 0xff0f6a70, 0x66063bca, 0x11010b5c, 0x8f659eff, 0xf862ae69, 0x616bffd3, 0x166ccf45]
  const ROW_E: seq<Word> := [
    0xa00ae278, 0xd70dd2ee, 0x4e048354, 0x3903b3c2, 0xa7672661, 0xd06016f7, 0x4969474d, 0x3e6e77db,
    0xaed16a4a, 0xd9d65adc, 0x40df0b66, 0x37d83bf0, 0xa9bcae53, 0xdebb9ec5, 0x47b2cf7f, 0x30b5ffe9]
  const ROW_F: seq<Word> := [
    0xbdbdf21c, 0xcabac28a, 0x53b39330, 0x24b4a3a6, 0xbad03605, 0xcdd70693, 0x54de5729, 0x23d967bf,
    0xb3667a2e, 0xc4614ab8, 0x5d681b02, 0x2a6f2b94, 0xb40bbe37, 0xc30c8ea1, 0x5a05df1b, 0x2d02ef8d]

  /** The source's table of 256 words, as sixteen rows of sixteen. */
  function TableRow(high: Word): seq<Word>
    requires high < 16
  {
    match high
    case 0 => ROW_0
    case 1 => ROW_1
    case 2 => ROW_2
    case 3 => ROW_3
    case 4 => ROW_4
    case 5 => ROW_5
    case 6 => ROW_6
    case 7 => ROW_7
    case 8 => ROW_8
    case 9 => ROW_9
    case 10 => ROW_A
    case 11 => ROW_B
    case 12 => ROW_C
    case 13 => ROW_D
    case 14 => ROW_E
    case _ => ROW_F
  }

  /** The number that a nibble stands for. */
  function NibbleValue(x: Word): (n: nat)
    requires x < 16
    ensures n < 16
  {
    match x
    case 0 => 0
    case 1 => 1
    case 2 => 2
    case 3 => 3
    case 4 => 4
    case 5 => 5
    case 6 => 6
    case 7 => 7
    case 8 => 8
    case 9 => 9
    case 10 => 10
    case 11 => 11
    case 12 => 12
    case 13 => 13
    case 14 => 14
    case _ => 15
  }

  /** Each word of a row is its first word with the same word of row 0 added in; the
      remainder is linear, so two sixteenths of the table determine it. */
  predicate RowAgrees(row: seq<Word>, first: Word) {
    && |row| == 16
    && row[0] == Xor(first, ROW_0[0])
    && row[1] == Xor(first, ROW_0[1])
    && row[2] == Xor(first, ROW_0[2])
    && row[3] == Xor(first, ROW_0[3])
    && row[4] == Xor(first, ROW_0[4])
    && row[5] == Xor(first, ROW_0[5])
    && row[6] == Xor(first, ROW_0[6])
    && row[7] == Xor(first, ROW_0[7])
    && row[8] == Xor(first, ROW_0[8])
    && row[9] == Xor(first, ROW_0[9])
    && row[10] == Xor(first, ROW_0[10])
    && row[11] == Xor(first, ROW_0[11])
    && row[12] == Xor(first, ROW_0[12])
    && row[13] == Xor(first, ROW_0[13])
    && row[14] == Xor(first, ROW_0[14])
    && row[15] == Xor(first, ROW_0[15])
  }

  lemma FirstRow(low: Word)
    requires low < 16
    ensures ROW_0[NibbleValue(low)] == EightSteps(low)
  {
    match low
    case 0 => assert ROW_0[0] == EightSteps(0);
    case 1 => assert ROW_0[1] == EightSteps(1);
    case 2 => assert ROW_0[2] == EightSteps(2);
    case 3 => assert ROW_0[3] == EightSteps(3);
    case 4 => assert ROW_0[4] == EightSteps(4);
    case 5 => assert ROW_0[5] == EightSteps(5);
    case 6 => assert ROW_0[6] == EightSteps(6);
    case 7 => assert ROW_0[7] == EightSteps(7);
    case 8 => assert ROW_0[8] == EightSteps(8);
    case 9 => assert ROW_0[9] == EightSteps(9);
    case 10 => assert ROW_0[10] == EightSteps(10);
    case 11 => assert ROW_0[11] == EightSteps(11);
    case 12 => assert ROW_0[12] == EightSteps(12);
    case 13 => assert ROW_0[13] == EightSteps(13);
    case 14 => assert ROW_0[14] == EightSteps(14);
    case _ => assert ROW_0[15] == EightSteps(15);
  }

  lemma Row1()
    ensures RowAgrees(ROW_1, EightSteps(0x10))
  {
    assert ROW_1[0] == EightSteps(0x10);
  }

  lemma Row2()
    ensures RowAgrees(ROW_2, EightSteps(0x20))
  {
    assert ROW_2[0] == EightSteps(0x20);
  }

  lemma Row3()
    ensures RowAgrees(ROW_3, EightSteps(0x30))
  {
    assert ROW_3[0] == EightSteps(0x30);
  }

  lemma Row4()
    ensures RowAgrees(ROW_4, EightSteps(0x40))
  {
    assert ROW_4[0] == EightSteps(0x40);
  }

  lemma Row5()
    ensures RowAgrees(ROW_5, EightSteps(0x50))
  {
    assert ROW_5[0] == EightSteps(0x50);
  }

  lemma Row6()
    ensures RowAgrees(ROW_6, EightSteps(0x60))
  {
    assert ROW_6[0] == EightSteps(0x60);
  }

  lemma Row7()
    ensures RowAgrees(ROW_7, EightSteps(0x70))
  {
    assert ROW_7[0] == EightSteps(0x70);
  }

  lemma Row8()
    ensures RowAgrees(ROW_8, EightSteps(0x80))
  {
    assert ROW_8[0] == EightSteps(0x80);
  }

  lemma Row9()
    ensures RowAgrees(ROW_9, EightSteps(0x90))
  {
    assert ROW_9[0] == EightSteps(0x90);
  }

  lemma RowA()
    ensures RowAgrees(ROW_A, EightSteps(0xa0))
  {
    assert ROW_A[0] == EightSteps(0xa0);
  }

  lemma RowB()
    ensures RowAgrees(ROW_B, EightSteps(0xb0))
  {
    assert ROW_B[0] == EightSteps(0xb0);
  }

  lemma RowC()
    ensures RowAgrees(ROW_C, EightSteps(0xc0))
  {
    assert ROW_C[0] == EightSteps(0xc0);
  }

  lemma RowD()
    ensures RowAgrees(ROW_D, EightSteps(0xd0))
  {
    assert ROW_D[0] == EightSteps(0xd0);
  }

  lemma RowE()
    ensures RowAgrees(ROW_E, EightSteps(0xe0))
  {
    assert ROW_E[0] == EightSteps(0xe0);
  }

  lemma RowF()
    ensures RowAgrees(ROW_F, EightSteps(0xf0))
  {
    assert ROW_F[0] == EightSteps(0xf0);
  }

  lemma RowAt(high: Word)
    requires high < 16
    ensures RowAgrees(TableRow(high), EightSteps(high << 4))
  {
    hide RowAgrees, EightSteps;
    match high
    case 0 => RowZero();
    case 1 => Row1();
    case 2 => Row2();
    case 3 => Row3();
    case 4 => Row4();
    case 5 => Row5();
    case 6 => Row6();
    case 7 => Row7();
    case 8 => Row8();
    case 9 => Row9();
    case 10 => RowA();
    case 11 => RowB();
    case 12 => RowC();
    case 13 => RowD();
    case 14 => RowE();
    case _ => RowF();
  }

  lemma RowZero()
    ensures RowAgrees(ROW_0, EightSteps(0))
  {
    NothingLeft();
    hide Xor, EightSteps;
    forall x: Word ensures Xor(0, x) == x {
      XorZero(x);
    }
  }

  lemma NothingLeft()
    ensures EightSteps(0) == 0
  {
  }

  lemma XorZero(x: Word)
    ensures Xor(0, x) == x
  {
  }

  lemma RowEntry(row: seq<Word>, first: Word, n: nat)
    requires RowAgrees(row, first) && n < 16
    ensures row[n] == Xor(first, ROW_0[n])
  {
    hide Xor;
  }

  /** qualityTable[x] */
  function Table(x: Word): Word
    requires x < 256
  {
    RowAt(x >> 4);
    TableRow(x >> 4)[NibbleValue(x & 15)]
  }

  // ---------------------------------------------------------------- linearity

  predicate Odd(r: Word) {
    r & 1 == 1
  }

  function Half(r: Word): Word {
    r >> 1
  }

  lemma BitStepParts(r: Word)
    ensures BitStep(r) == if Odd(r) then Xor(Half(r), POLYNOMIAL) else Half(r)
  {
  }

  lemma OddXor(a: Word, b: Word)
    ensures Odd(Xor(a, b)) <==> Odd(a) != Odd(b)
  {
  }

  lemma HalfXor(a: Word, b: Word)
    ensures Half(Xor(a, b)) == Xor(Half(a), Half(b))
  {
  }

  lemma XorMoves(a: Word, b: Word, p: Word)
    ensures Xor(Xor(a, p), b) == Xor(Xor(a, b), p)
    ensures Xor(a, Xor(b, p)) == Xor(Xor(a, b), p)
    ensures Xor(Xor(a, p), Xor(b, p)) == Xor(a, b)
  {
  }

  lemma BitStepLinear(a: Word, b: Word)
    ensures BitStep(Xor(a, b)) == Xor(BitStep(a), BitStep(b))
  {
    hide BitStep, Xor, Odd, Half;
    BitStepParts(a);
    BitStepParts(b);
    BitStepParts(Xor(a, b));
    OddXor(a, b);
    HalfXor(a, b);
    XorMoves(Half(a), Half(b), POLYNOMIAL);
  }

  /** The remainder of a sum is the sum of the remainders. */
  lemma Linear(a: Word, b: Word)
    ensures EightSteps(Xor(a, b)) == Xor(EightSteps(a), EightSteps(b))
  {
    hide BitStep, Xor;
    var a1, b1 := BitStep(a), BitStep(b);
    var a2, b2 := BitStep(a1), BitStep(b1);
    var a3, b3 := BitStep(a2), BitStep(b2);
    var a4, b4 := BitStep(a3), BitStep(b3);
    var a5, b5 := BitStep(a4), BitStep(b4);
    var a6, b6 := BitStep(a5), BitStep(b5);
    var a7, b7 := BitStep(a6), BitStep(b6);
    BitStepLinear(a, b);
    BitStepLinear(a1, b1);
    BitStepLinear(a2, b2);
    BitStepLinear(a3, b3);
    BitStepLinear(a4, b4);
    BitStepLinear(a5, b5);
    BitStepLinear(a6, b6);
    BitStepLinear(a7, b7);
  }

  lemma Nibbles(x: Word)
    requires x < 256
    ensures x >> 4 < 16 && x & 15 < 16 && Xor(x >> 4 << 4, x & 15) == x
  {
  }

  /** Each of the 256 table words is what eight bit steps make of its index. */
  lemma TableIsRemainder(x: Word)
    requires x < 256
    ensures Table(x) == EightSteps(x)
  {
    hide RowAgrees, EightSteps, TableRow, NibbleValue, Xor;
    Nibbles(x);
    RowAt(x >> 4);
    RowEntry(TableRow(x >> 4), EightSteps(x >> 4 << 4), NibbleValue(x & 15));
    FirstRow(x & 15);
    Linear(x >> 4 << 4, x & 15);
  }

  // ---------------------------------------------------------------- bytes

  function Low(x: Word): Word {
    x & 0xFF
  }

  function High(x: Word): Word {
    x & 0xFFFFFF00
  }

  /** The table step takes the place of eight bit steps: the low byte of the register
      meets the input, the rest only moves down. */
  function TableStep(r: Word, b: Octet): Word {
    LowIsIndex(Xor(r, Widen(b)));
    Xor(MovedDown(r), Table(Low(Xor(r, Widen(b)))))
  }

  function MovedDown(r: Word): Word {
    (r >> 8) & 0x00FFFFFF
  }

  lemma LowIsIndex(x: Word)
    ensures Low(x) < 256
  {
  }

  lemma HighAndLow(x: Word)
    ensures Xor(High(x), Low(x)) == x
  {
  }

  lemma HighOnlyMoves(r: Word, b: Octet)
    ensures EightSteps(High(Xor(r, Widen(b)))) == MovedDown(r)
  {
  }

  lemma TableStepIsByteStep(r: Word, b: Octet)
    ensures TableStep(r, b) == ByteStep(r, b)
  {
    hide Table, EightSteps, Xor, High, Low, MovedDown, Widen;
    var x := Xor(r, Widen(b));
    LowIsIndex(x);
    TableIsRemainder(Low(x));
    HighAndLow(x);
    Linear(High(x), Low(x));
    HighOnlyMoves(r, b);
  }

  /** A byte string in memory: `len` says how much of it is meant, and a negative
      length means up to the terminator. */
  function Terminated(s: seq<Octet>): seq<Octet> {
    if s == [] || s[0] == 0 then [] else [s[0]] + Terminated(s[1..])
  }

  lemma {:induction false} TerminatedEnds(s: seq<Octet>)
    requires 0 in s
    ensures var n := |Terminated(s)|; n < |s| && s[n] == 0 && Terminated(s) == s[..n] && 0 !in s[..n]
  {
    if s[0] != 0 {
      TerminatedEnds(s[1..]);
      assert s[..|Terminated(s)|] == [s[0]] + s[1..][..|Terminated(s[1..])|];
    }
  }

  datatype Input = NullPointer | Bytes(s: seq<Octet>)

  /** What GetHashCode hashes; an empty input hashes to zero without a CRC. */
  function Hashed(input: Input, len: int): seq<Octet>
    requires input.Bytes? ==> len <= |input.s|
  {
    match input
    case NullPointer => []
    case Bytes(s) => if len < 0 then Terminated(s) else s[..len]
  }

  /** The bytes that are hashed: none, the first len, or those before the first zero. */
  lemma HashedPart(input: Input, len: int)
    requires input.Bytes? ==> len <= |input.s| && (len < 0 ==> 0 in input.s)
    ensures input.NullPointer? || len == 0 ==> Hashed(input, len) == []
    ensures input.Bytes? && len > 0 ==> Hashed(input, len) == input.s[..len]
    ensures input.Bytes? && len < 0 ==>
              exists n :: 0 <= n < |input.s| && input.s[n] == 0 && 0 !in input.s[..n]
                          && Hashed(input, len) == input.s[..n]
  {
    if input.Bytes? && len < 0 {
      TerminatedEnds(input.s);
    }
  }

  function Unsigned(w: Word): (n: nat)
    ensures n < 0x1_0000_0000
  {
    w as nat
  }

  /** The word as the signed integer it is returned as. */
  function Signed(w: Word): int {
    if Unsigned(w) < 0x8000_0000 then Unsigned(w) else Unsigned(w) - 0x1_0000_0000
  }

  /** A word comes back as the signed 32-bit integer of the same residue. */
  lemma SignedWraps(w: Word)
    ensures -0x8000_0000 <= Signed(w) < 0x8000_0000
    ensures Signed(w) == Unsigned(w) || Signed(w) == Unsigned(w) - 0x1_0000_0000
  {
    hide Unsigned;
  }

  lemma UnsignedInjective(v: Word, w: Word)
    requires Unsigned(v) == Unsigned(w)
    ensures v == w
  {
    assert Unsigned(v) as Word == v;
    assert Unsigned(w) as Word == w;
  }

  lemma SignedInjective(v: Word, w: Word)
    requires Signed(v) == Signed(w)
    ensures v == w
  {
    hide Unsigned;
    UnsignedInjective(v, w);
  }

  // ---------------------------------------------------------------- error detection

  lemma BitStepInjective(q: Word, r: Word)
    requires BitStep(q) == BitStep(r)
    ensures q == r
  {
  }

  lemma EightStepsInjective(q: Word, r: Word)
    requires EightSteps(q) == EightSteps(r)
    ensures q == r
  {
    hide BitStep;
    forall x: Word, y: Word | BitStep(x) == BitStep(y) ensures x == y {
      BitStepInjective(x, y);
    }
  }

  lemma XorInjective(q: Word, r: Word, x: Word)
    ensures Xor(q, x) == Xor(r, x) ==> q == r
    ensures Xor(x, q) == Xor(x, r) ==> q == r
  {
  }

  /** Different registers stay different under the same bytes. */
  lemma {:induction false} RegistersStayApart(q: Word, r: Word, s: seq<Octet>)
    requires q != r
    ensures Register(q, s) != Register(r, s)
    decreases |s|
  {
    hide EightSteps, Xor, Widen;
    if s != [] {
      XorInjective(q, r, Widen(s[0]));
      if ByteStep(q, s[0]) == ByteStep(r, s[0]) {
        EightStepsInjective(Xor(q, Widen(s[0])), Xor(r, Widen(s[0])));
      }
      RegistersStayApart(ByteStep(q, s[0]), ByteStep(r, s[0]), s[1..]);
    }
  }

  lemma {:induction false} RegisterConcat(r: Word, a: seq<Octet>, b: seq<Octet>)
    ensures Register(r, a + b) == Register(Register(r, a), b)
    decreases |a|
  {
    hide EightSteps, Xor, Widen;
    if a == [] {
      assert a + b == b;
    } else {
      assert (a + b)[1..] == a[1..] + b;
      RegisterConcat(ByteStep(r, a[0]), a[1..], b);
    }
  }

  function Up(w: Word): Word {
    w << 8
  }

  lemma UpComesDown(w: Word)
    requires w < 0x100_0000
    ensures EightSteps(Up(w)) == w
  {
  }

  /** What is added after eight steps could have been added eight bits higher before. */
  lemma Slide(x: Word, w: Word)
    requires w < 0x100_0000
    ensures Xor(EightSteps(x), w) == EightSteps(Xor(x, Up(w)))
  {
    hide EightSteps, Xor, Up;
    UpComesDown(w);
    Linear(x, Up(w));
  }

  lemma UpIsSmall(b: Octet)
    ensures Widen(b) < 0x100_0000 && Up(Widen(b)) < 0x100_0000 && Up(Up(Widen(b))) < 0x100_0000
  {
  }

  /** Four bytes as one word, first byte lowest. */
  function FourBytes(w: seq<Octet>): Word
    requires |w| == 4
  {
    Xor(Xor(Xor(Widen(w[0]), Up(Widen(w[1]))), Up(Up(Widen(w[2])))), Up(Up(Up(Widen(w[3])))))
  }

  lemma FourBytesInjective(v: seq<Octet>, w: seq<Octet>)
    requires |v| == |w| == 4 && FourBytes(v) == FourBytes(w)
    ensures v == w
  {
    WordInjective(v[0], v[1], v[2], v[3], w[0], w[1], w[2], w[3]);
  }

  lemma WordInjective(a: Octet, b: Octet, c: Octet, d: Octet, e: Octet, f: Octet, g: Octet, h: Octet)
    requires Xor(Xor(Xor(Widen(a), Up(Widen(b))), Up(Up(Widen(c)))), Up(Up(Up(Widen(d))))) ==
             Xor(Xor(Xor(Widen(e), Up(Widen(f))), Up(Up(Widen(g)))), Up(Up(Up(Widen(h)))))
    ensures a == e && b == f && c == g && d == h
  {
  }

  lemma XorAssoc(a: Word, b: Word, c: Word)
    ensures Xor(Xor(a, b), c) == Xor(a, Xor(b, c))
  {
  }

  /** Four bytes go through the register as one word does. */
  lemma FourByteRegister(r: Word, w: seq<Octet>)
    requires |w| == 4
    ensures Register(r, w) == EightSteps(EightSteps(EightSteps(EightSteps(Xor(r, FourBytes(w))))))
  {
    var b0, b1, b2, b3 := Widen(w[0]), Widen(w[1]), Widen(w[2]), Widen(w[3]);
    hide Register, EightSteps, Xor, Widen, Up;
    UpIsSmall(w[1]);
    UpIsSmall(w[2]);
    UpIsSmall(w[3]);
    var x := Xor(r, b0);
    Slide(x, b1);
    var y := Xor(x, Up(b1));
    Slide(EightSteps(y), b2);
    Slide(y, Up(b2));
    var z := Xor(y, Up(Up(b2)));
    Slide(EightSteps(EightSteps(z)), b3);
    Slide(EightSteps(z), Up(b3));
    Slide(z, Up(Up(b3)));
    XorAssoc(r, b0, Up(b1));
    XorAssoc(r, Xor(b0, Up(b1)), Up(Up(b2)));
    XorAssoc(r, Xor(Xor(b0, Up(b1)), Up(Up(b2))), Up(Up(Up(b3))));
    RegisterOfFour(r, w);
  }

  lemma RegisterOfFour(r: Word, w: seq<Octet>)
    requires |w| == 4
    ensures Register(r, w) == ByteStep(ByteStep(ByteStep(ByteStep(r, w[0]), w[1]), w[2]), w[3])
  {
    hide ByteStep;
    var r1 := ByteStep(r, w[0]);
    var r2 := ByteStep(r1, w[1]);
    var r3 := ByteStep(r2, w[2]);
    assert w[1..][1..] == w[2..] && w[2..][1..] == w[3..] && w[3..][1..] == [];
    assert Register(r3, w[3..]) == Register(ByteStep(r3, w[3]), []);
    assert Register(r2, w[2..]) == Register(r3, w[3..]);
    assert Register(r1, w[1..]) == Register(r2, w[2..]);
  }

  /** Up to four bytes can be told from what they do to the register. */
  lemma BurstChangesRegister(r: Word, v: seq<Octet>, w: seq<Octet>)
    requires |v| == |w| <= 4 && v != w
    ensures Register(r, v) != Register(r, w)
  {
    hide EightSteps, Xor, FourBytes;
    var padding := seq(4 - |v|, _ => 0 as Octet);
    var v4, w4 := v + padding, w + padding;
    assert v4[..|v|] == v && w4[..|w|] == w;
    RegisterConcat(r, v, padding);
    RegisterConcat(r, w, padding);
    FourByteRegister(r, v4);
    FourByteRegister(r, w4);
    if Register(r, v4) == Register(r, w4) {
      forall x: Word, y: Word | EightSteps(x) == EightSteps(y) ensures x == y {
        EightStepsInjective(x, y);
      }
      XorInjective(FourBytes(v4), FourBytes(w4), r);
      FourBytesInjective(v4, w4);
    }
  }

  /** Two inputs of equal length that differ only within four consecutive bytes never
      collide; in particular no change of one byte goes unnoticed. */
  lemma BurstChangesHash(before: seq<Octet>, v: seq<Octet>, w: seq<Octet>, after: seq<Octet>)
    requires |v| == |w| <= 4 && v != w
    ensures Signed(Crc(before + v + after)) != Signed(Crc(before + w + after))
  {
    hide Register, Signed, Xor;
    var r := Register(ALL_ONES, before);
    RegisterConcat(ALL_ONES, before + v, after);
    RegisterConcat(ALL_ONES, before + w, after);
    RegisterConcat(ALL_ONES, before, v);
    RegisterConcat(ALL_ONES, before, w);
    BurstChangesRegister(r, v, w);
    RegistersStayApart(Register(r, v), Register(r, w), after);
    XorInjective(Register(ALL_ONES, before + v + after), Register(ALL_ONES, before + w + after), ALL_ONES);
    if Signed(Crc(before + v + after)) == Signed(Crc(before + w + after)) {
      SignedInjective(Crc(before + v + after), Crc(before + w + after));
    }
  }

  // ---------------------------------------------------------------- known values

  /** The four bytes of a word, lowest first. */
  function WordBytes(w: Word): (b: seq<Octet>)
    ensures |b| == 4
  {
    [(w & 0xff) as Octet, ((w >> 8) & 0xff) as Octet, ((w >> 16) & 0xff) as Octet, (w >> 24) as Octet]
  }

  lemma WordOfBytes(w: Word)
    ensures FourBytes(WordBytes(w)) == w
  {
  }

  lemma XorCancels(a: Word, b: Word)
    ensures Xor(a, Xor(a, b)) == b
  {
  }

  lemma Remainder()
    ensures EightSteps(EightSteps(EightSteps(EightSteps(0xFFFFFFFF)))) == 0xDEBB20E3
  {
    assert EightSteps(0xFFFFFFFF) == 0x2DFD1072;
    assert EightSteps(0x2DFD1072) == 0xBE26ED00;
    assert EightSteps(0xBE26ED00) == 0x00BE26ED;
    assert EightSteps(0x00BE26ED) == 0xDEBB20E3;
  }

  /** A message with its own hash behind it always has the same one: the register ends at the
      remainder of the CRC, 0xDEBB20E3. */
  lemma HashedMessageHasResidue(s: seq<Octet>)
    ensures Register(0xFFFFFFFF, s + WordBytes(Crc(s))) == 0xDEBB20E3
    ensures Crc(s + WordBytes(Crc(s))) == 0x2144DF1C
  {
    hide Register, EightSteps, FourBytes, Xor, WordBytes;
    var r := Register(ALL_ONES, s);
    RegisterConcat(ALL_ONES, s, WordBytes(Crc(s)));
    FourByteRegister(r, WordBytes(Crc(s)));
    WordOfBytes(Crc(s));
    XorCancels(r, ALL_ONES);
    Remainder();
    LastXor();
  }

  lemma LastXor()
    ensures Xor(0xDEBB20E3, ALL_ONES) == 0x2144DF1C && Xor(0x340BC6D9, ALL_ONES) == 0xCBF43926
  {
  }

  /** The check value of CRC-32: the digits from 1 to 9 hash to 0xCBF43926. */
  lemma CheckValue()
    ensures Crc([0x31, 0x32, 0x33, 0x34, 0x35, 0x36, 0x37, 0x38, 0x39]) == 0xCBF43926
  {
    var s: seq<Octet> := [0x31, 0x32, 0x33, 0x34, 0x35, 0x36, 0x37, 0x38, 0x39];
    hide Register, ByteStep;
    DigitSteps();
    LastXor();
    assert s[..8] == s[..4] + s[4..8] && s == s[..8] + s[8..];
    RegisterConcat(ALL_ONES, s[..4], s[4..8]);
    RegisterConcat(ALL_ONES, s[..8], s[8..]);
    RegisterOfFour(ALL_ONES, s[..4]);
    RegisterOfFour(0x641C1F5C, s[4..8]);
    RegisterOfOne(0x651F2550, s[8..]);
  }

  lemma RegisterOfOne(r: Word, w: seq<Octet>)
    requires |w| == 1
    ensures Register(r, w) == ByteStep(r, w[0])
  {
    hide ByteStep;
    assert w[1..] == [];
    assert Register(ByteStep(r, w[0]), w[1..]) == ByteStep(r, w[0]);
  }

  lemma DigitSteps()
    ensures ByteStep(ALL_ONES, 0x31) == 0x7C231048 && ByteStep(0x7C231048, 0x32) == 0xB0ACBB32
    ensures ByteStep(0xB0ACBB32, 0x33) == 0x77B79C2D && ByteStep(0x77B79C2D, 0x34) == 0x641C1F5C
    ensures ByteStep(0x641C1F5C, 0x35) == 0x340AC5E3 && ByteStep(0x340AC5E3, 0x36) == 0xF68D2C9E
    ensures ByteStep(0xF68D2C9E, 0x37) == 0xAFFC9660 && ByteStep(0xAFFC9660, 0x38) == 0x651F2550
    ensures ByteStep(0x651F2550, 0x39) == 0x340BC6D9
  {
  }

  /** GetHashCode("123456789") */
  lemma CheckHash()
    ensures Signed(Crc([0x31, 0x32, 0x33, 0x34, 0x35, 0x36, 0x37, 0x38, 0x39])) == -873187034
  {
    hide Crc;
    CheckValue();
  }

  method GetHashCode(input: Input, len: int) returns (hash: int)
    requires input.Bytes? ==> len <= |input.s| && (len < 0 ==> 0 in input.s)
    ensures hash == if Hashed(input, len) == [] then 0 else Signed(Crc(Hashed(input, len)))
  {
    if input.NullPointer? {
      return 0;
    }
    var buf := if len < 0 then Terminated(input.s) else input.s[..len];
    if |buf| <= 0 {
      return 0;
    }
    var register := ALL_ONES;
    for i := 0 to |buf|
      invariant Register(register, buf[i..]) == Register(ALL_ONES, buf)
    {
      hide TableStep, ByteStep, Widen;
      TableStepIsByteStep(register, buf[i]);
      assert buf[i..][1..] == buf[i + 1..];
      register := TableStep(register, buf[i]);
    }
    hash := Signed(Xor(register, ALL_ONES));
  }
}
