/** 64-bit words as bits, and the stages that move their bits. */
module Words64 {

  type Word = bv64
  type Index = bv6

  predicate Bit(x: Word, i: Index) { (x >> i) & 1 == 1 }

  lemma FindBit(d: Word) returns (i: Index)
    ensures d != 0 ==> Bit(d, i)
  {
    var e := d;
    i := 0;
    if e & 0xffffffff == 0 { e, i := e >> 32, i + 32; }
    if e & 0xffff == 0 { e, i := e >> 16, i + 16; }
    if e & 0xff == 0 { e, i := e >> 8, i + 8; }
    if e & 0xf == 0 { e, i := e >> 4, i + 4; }
    if e & 3 == 0 { e, i := e >> 2, i + 2; }
    if e & 1 == 0 { e, i := e >> 1, i + 1; }
  }

  lemma XorBit(x: Word, y: Word, i: Index)
    ensures Bit(x ^ y, i) == (Bit(x, i) != Bit(y, i))
  {
  }

  lemma OrBit(x: Word, y: Word, i: Index)
    ensures Bit(x | y, i) == (Bit(x, i) || Bit(y, i))
  {
  }

  // ----- reverse stages -----

  function Rev1(x: Word): (r: Word) { ((x & 0x5555555555555555) << 1) | ((x & 0xAAAAAAAAAAAAAAAA) >> 1) }
  function Rev2(x: Word): (r: Word) { ((x & 0x3333333333333333) << 2) | ((x & 0xCCCCCCCCCCCCCCCC) >> 2) }
  function Rev4(x: Word): (r: Word) { ((x & 0x0F0F0F0F0F0F0F0F) << 4) | ((x & 0xF0F0F0F0F0F0F0F0) >> 4) }
  function Rev8(x: Word): (r: Word) { ((x & 0x00FF00FF00FF00FF) << 8) | ((x & 0xFF00FF00FF00FF00) >> 8) }
  function Rev16(x: Word): (r: Word) { ((x & 0x0000FFFF0000FFFF) << 16) | ((x & 0xFFFF0000FFFF0000) >> 16) }
  function Rev32(x: Word): (r: Word) { ((x & 0x00000000FFFFFFFF) << 32) | ((x & 0xFFFFFFFF00000000) >> 32) }

  lemma Rev1Bit(x: Word, i: Index)
    ensures Bit(Rev1(x), i) == Bit(x, i ^ 1)
  {
  }

  lemma Rev2Bit(x: Word, i: Index)
    ensures Bit(Rev2(x), i) == Bit(x, i ^ 2)
  {
  }

  lemma Rev4Bit(x: Word, i: Index)
    ensures Bit(Rev4(x), i) == Bit(x, i ^ 4)
  {
  }

  lemma Rev8Bit(x: Word, i: Index)
    ensures Bit(Rev8(x), i) == Bit(x, i ^ 8)
  {
  }

  lemma Rev16Bit(x: Word, i: Index)
    ensures Bit(Rev16(x), i) == Bit(x, i ^ 16)
  {
  }

  lemma Rev32Bit(x: Word, i: Index)
    ensures Bit(Rev32(x), i) == Bit(x, i ^ 32)
  {
  }

  /** Reverse stage k exchanges neighbouring blocks of 2^k bits. */
  function RevStage(k: nat, x: Word): (r: Word) {
    if k == 0 then Rev1(x) else if k == 1 then Rev2(x) else if k == 2 then Rev4(x) else if k == 3 then Rev8(x)
    else if k == 4 then Rev16(x) else Rev32(x)
  }

  /** The index 2^k away from i, in the neighbouring block. */
  function Across(k: nat, i: Index): (r: Index) {
    if k == 0 then i ^ 1 else if k == 1 then i ^ 2 else if k == 2 then i ^ 4 else if k == 3 then i ^ 8
    else if k == 4 then i ^ 16 else i ^ 32
  }

  lemma RevStageBit(k: nat, x: Word, i: Index)
    requires k < 6
    ensures Bit(RevStage(k, x), i) == Bit(x, Across(k, i))
  {
    if k == 0 { Rev1Bit(x, i); } else if k == 1 { Rev2Bit(x, i); } else if k == 2 { Rev4Bit(x, i); }
    else if k == 3 { Rev8Bit(x, i); } else if k == 4 { Rev16Bit(x, i); } else { Rev32Bit(x, i); }
  }

  function Apart(k: nat): (r: Index) {
    if k == 0 then 1 else if k == 1 then 2 else if k == 2 then 4 else if k == 3 then 8 else if k == 4 then 16 else 32
  }

  lemma AcrossIsXor(k: nat, i: Index)
    ensures Across(k, i) == i ^ Apart(k)
  {
  }

  lemma XorIndex(i: Index, a: Index, b: Index)
    ensures (i ^ a) ^ b == (i ^ b) ^ a && (i ^ a) ^ a == i
  {
  }

  lemma AcrossLaws(j: nat, k: nat, i: Index)
    ensures Across(j, Across(k, i)) == Across(k, Across(j, i)) && Across(k, Across(k, i)) == i
  {
    AcrossIsXor(k, i); AcrossIsXor(j, i);
    AcrossIsXor(j, Across(k, i)); AcrossIsXor(k, Across(j, i)); AcrossIsXor(k, Across(k, i));
    XorIndex(i, Apart(k), Apart(j));
  }

  /** Or-combine stage k keeps the word and adds its reversed blocks. */
  function OrStage(k: nat, x: Word): (r: Word) { x | RevStage(k, x) }

  lemma OrWith(x: Word, y: Word, i: Index, j: Index)
    requires Bit(y, i) == Bit(x, j)
    ensures Bit(x | y, i) == (Bit(x, i) || Bit(x, j))
  {
    OrBit(x, y, i);
  }

  lemma OrStageBit(k: nat, x: Word, i: Index)
    requires k < 6
    ensures Bit(OrStage(k, x), i) == (Bit(x, i) || Bit(x, Across(k, i)))
  {
    OrWith(x, RevStage(k, x), i, Across(k, i)) by { RevStageBit(k, x, i); }
  }

  // ----- shuffle stages -----

  function Stage(src: Word, maskL: Word, maskR: Word, n: Index): (r: Word) {
    (src & !(maskL | maskR)) | ((src << n) & maskL) | ((src >> n) & maskR)
  }

  function Shuffle1(x: Word): (r: Word) { Stage(x, 0x4444444444444444, 0x2222222222222222, 1) }
  function Shuffle2(x: Word): (r: Word) { Stage(x, 0x3030303030303030, 0x0c0c0c0c0c0c0c0c, 2) }
  function Shuffle4(x: Word): (r: Word) { Stage(x, 0x0f000f000f000f00, 0x00f000f000f000f0, 4) }
  function Shuffle8(x: Word): (r: Word) { Stage(x, 0x00ff000000ff0000, 0x0000ff000000ff00, 8) }
  function Shuffle16(x: Word): (r: Word) { Stage(x, 0x0000ffff00000000, 0x00000000ffff0000, 16) }

  function Swap1(i: Index): (r: Index) { if i & 3 == 2 then i - 1 else if i & 3 == 1 then i + 1 else i }
  function Swap2(i: Index): (r: Index) { if i & 6 == 4 then i - 2 else if i & 6 == 2 then i + 2 else i }
  function Swap4(i: Index): (r: Index) { if i & 12 == 8 then i - 4 else if i & 12 == 4 then i + 4 else i }
  function Swap8(i: Index): (r: Index) { if i & 24 == 16 then i - 8 else if i & 24 == 8 then i + 8 else i }
  function Swap16(i: Index): (r: Index) { if i & 48 == 32 then i - 16 else if i & 48 == 16 then i + 16 else i }

  lemma Shuffle1Left(x: Word, i: Index)
    requires i & 3 == 2
    ensures Bit(Shuffle1(x), i) == Bit(x, i - 1)
  {
  }

  lemma Shuffle1Right(x: Word, i: Index)
    requires i & 3 == 1
    ensures Bit(Shuffle1(x), i) == Bit(x, i + 1)
  {
  }

  lemma Shuffle1Keep(x: Word, i: Index)
    requires i & 3 != 2 && i & 3 != 1
    ensures Bit(Shuffle1(x), i) == Bit(x, i)
  {
  }

  lemma Swap1Twice(i: Index)
    ensures Swap1(Swap1(i)) == i
  {
  }

  lemma Shuffle1Bit(x: Word, i: Index)
    ensures Bit(Shuffle1(x), i) == Bit(x, Swap1(i))
  {
    if i & 3 == 2 { Shuffle1Left(x, i); } else if i & 3 == 1 { Shuffle1Right(x, i); } else { Shuffle1Keep(x, i); }
  }

  lemma Shuffle2Left(x: Word, i: Index)
    requires i & 6 == 4
    ensures Bit(Shuffle2(x), i) == Bit(x, i - 2)
  {
  }

  lemma Shuffle2Right(x: Word, i: Index)
    requires i & 6 == 2
    ensures Bit(Shuffle2(x), i) == Bit(x, i + 2)
  {
  }

  lemma Shuffle2Keep(x: Word, i: Index)
    requires i & 6 != 4 && i & 6 != 2
    ensures Bit(Shuffle2(x), i) == Bit(x, i)
  {
  }

  lemma Swap2Twice(i: Index)
    ensures Swap2(Swap2(i)) == i
  {
  }

  lemma Shuffle2Bit(x: Word, i: Index)
    ensures Bit(Shuffle2(x), i) == Bit(x, Swap2(i))
  {
    if i & 6 == 4 { Shuffle2Left(x, i); } else if i & 6 == 2 { Shuffle2Right(x, i); } else { Shuffle2Keep(x, i); }
  }

  lemma Shuffle4Left(x: Word, i: Index)
    requires i & 12 == 8
    ensures Bit(Shuffle4(x), i) == Bit(x, i - 4)
  {
  }

  lemma Shuffle4Right(x: Word, i: Index)
    requires i & 12 == 4
    ensures Bit(Shuffle4(x), i) == Bit(x, i + 4)
  {
  }

  lemma Shuffle4Keep(x: Word, i: Index)
    requires i & 12 != 8 && i & 12 != 4
    ensures Bit(Shuffle4(x), i) == Bit(x, i)
  {
  }

  lemma Swap4Twice(i: Index)
    ensures Swap4(Swap4(i)) == i
  {
  }

  lemma Shuffle4Bit(x: Word, i: Index)
    ensures Bit(Shuffle4(x), i) == Bit(x, Swap4(i))
  {
    if i & 12 == 8 { Shuffle4Left(x, i); } else if i & 12 == 4 { Shuffle4Right(x, i); } else { Shuffle4Keep(x, i); }
  }

  lemma Shuffle8Left(x: Word, i: Index)
    requires i & 24 == 16
    ensures Bit(Shuffle8(x), i) == Bit(x, i - 8)
  {
  }

  lemma Shuffle8Right(x: Word, i: Index)
    requires i & 24 == 8
    ensures Bit(Shuffle8(x), i) == Bit(x, i + 8)
  {
  }

  lemma Shuffle8Keep(x: Word, i: Index)
    requires i & 24 != 16 && i & 24 != 8
    ensures Bit(Shuffle8(x), i) == Bit(x, i)
  {
  }

  lemma Swap8Twice(i: Index)
    ensures Swap8(Swap8(i)) == i
  {
  }

  lemma Shuffle8Bit(x: Word, i: Index)
    ensures Bit(Shuffle8(x), i) == Bit(x, Swap8(i))
  {
    if i & 24 == 16 { Shuffle8Left(x, i); } else if i & 24 == 8 { Shuffle8Right(x, i); } else { Shuffle8Keep(x, i); }
  }

  lemma Shuffle16Left(x: Word, i: Index)
    requires i & 48 == 32
    ensures Bit(Shuffle16(x), i) == Bit(x, i - 16)
  {
  }

  lemma Shuffle16Right(x: Word, i: Index)
    requires i & 48 == 16
    ensures Bit(Shuffle16(x), i) == Bit(x, i + 16)
  {
  }

  lemma Shuffle16Keep(x: Word, i: Index)
    requires i & 48 != 32 && i & 48 != 16
    ensures Bit(Shuffle16(x), i) == Bit(x, i)
  {
  }

  lemma Swap16Twice(i: Index)
    ensures Swap16(Swap16(i)) == i
  {
  }

  lemma Shuffle16Bit(x: Word, i: Index)
    ensures Bit(Shuffle16(x), i) == Bit(x, Swap16(i))
  {
    if i & 48 == 32 { Shuffle16Left(x, i); } else if i & 48 == 16 { Shuffle16Right(x, i); }
    else { Shuffle16Keep(x, i); }
  }

  /** Shuffle stage k exchanges the middle two quarters of every block of 4 * 2^k bits. */
  function ShuffleStage(k: nat, x: Word): (r: Word) {
    if k == 0 then Shuffle1(x) else if k == 1 then Shuffle2(x) else if k == 2 then Shuffle4(x)
    else if k == 3 then Shuffle8(x) else Shuffle16(x)
  }

  /** Index i with its bits k and k + 1 exchanged. */
  function SwapIndex(k: nat, i: Index): (r: Index) {
    if k == 0 then Swap1(i) else if k == 1 then Swap2(i) else if k == 2 then Swap4(i) else if k == 3 then Swap8(i)
    else Swap16(i)
  }

  lemma ShuffleStageBit(k: nat, x: Word, i: Index)
    requires k < 5
    ensures Bit(ShuffleStage(k, x), i) == Bit(x, SwapIndex(k, i))
  {
    if k == 0 { Shuffle1Bit(x, i); } else if k == 1 { Shuffle2Bit(x, i); } else if k == 2 { Shuffle4Bit(x, i); }
    else if k == 3 { Shuffle8Bit(x, i); } else { Shuffle16Bit(x, i); }
  }

  lemma SwapIndexTwice(k: nat, i: Index)
    ensures SwapIndex(k, SwapIndex(k, i)) == i
  {
    if k == 0 { Swap1Twice(i); } else if k == 1 { Swap2Twice(i); } else if k == 2 { Swap4Twice(i); }
    else if k == 3 { Swap8Twice(i); } else { Swap16Twice(i); }
  }

  // ----- the exchanges as exchanges of index bits -----

  predicate IndexBit(i: Index, k: bv3)
    requires k < 6
  {
    (i >> k) & 1 == 1
  }

  /** The exchange of stage 0 takes index bits 0 and 1 for each other. */
  lemma Swap1Exchanges(i: Index, b: bv3)
    requires b < 6
    ensures IndexBit(Swap1(i), b) == IndexBit(i, if b == 0 then 1 else if b == 1 then 0 else b)
  {
  }

  /** The exchange of stage 1 takes index bits 1 and 2 for each other. */
  lemma Swap2Exchanges(i: Index, b: bv3)
    requires b < 6
    ensures IndexBit(Swap2(i), b) == IndexBit(i, if b == 1 then 2 else if b == 2 then 1 else b)
  {
  }

  /** The exchange of stage 2 takes index bits 2 and 3 for each other. */
  lemma Swap4Exchanges(i: Index, b: bv3)
    requires b < 6
    ensures IndexBit(Swap4(i), b) == IndexBit(i, if b == 2 then 3 else if b == 3 then 2 else b)
  {
  }

  /** The exchange of stage 3 takes index bits 3 and 4 for each other. */
  lemma Swap8Exchanges(i: Index, b: bv3)
    requires b < 6
    ensures IndexBit(Swap8(i), b) == IndexBit(i, if b == 3 then 4 else if b == 4 then 3 else b)
  {
  }

  /** The exchange of stage 4 takes index bits 4 and 5 for each other. */
  lemma Swap16Exchanges(i: Index, b: bv3)
    requires b < 6
    ensures IndexBit(Swap16(i), b) == IndexBit(i, if b == 4 then 5 else if b == 5 then 4 else b)
  {
  }
}
