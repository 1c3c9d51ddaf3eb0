/** The CLINT block: register decode, and accesses of any length that may span several registers. */
module Clint {

  type Byte = x: nat | x < 256

  /** A register value as its eight bytes, least significant first. */
  type Word = w: seq<Byte> | |w| == 8 witness [0, 0, 0, 0, 0, 0, 0, 0]

  datatype Hart = Hart(msip: bool, mtimecmp: Word, mtime: Word)

  // ----- register decode -----

  const MSIP: nat := 0
  const MTIMECMP: nat := 1
  const MTIME: nat := 2

  const UNS32: nat := 0x1_0000_0000

  /** A register: its kind, and its hart. */
  datatype Reg = Reg(kind: nat, hart: nat)

  datatype Decoded = Undecoded | At(reg: Reg, offset: nat)

  /** Where the registers of a kind start. */
  function Lo(kind: nat): (o: nat) { if kind == MSIP then 0x0000 else if kind == MTIMECMP then 0x4000 else 0xbff8 }

  /** Bytes taken by the registers of a kind, in 32 bits: four per hart, eight per hart, or eight. */
  function Extent(n: nat, kind: nat): (s: nat) {
    if kind == MSIP then 4 * n % UNS32 else if kind == MTIMECMP then 8 * n % UNS32 else 8
  }

  predicate Covers(n: nat, kind: nat, offset: nat) {
    Lo(kind) <= offset <= (Lo(kind) + Extent(n, kind) - 1) % UNS32
  }

  function RegAt(kind: nat, regOffset: nat): (d: Decoded) {
    if kind == MSIP then At(Reg(kind, regOffset / 4), regOffset % 4) else At(Reg(kind, regOffset / 8), regOffset % 8)
  }

  /** The table of register kinds, in the order in which it is searched. */
  const TABLE: seq<nat> := [MSIP, MTIMECMP, MTIME]

  /** The register that covers an offset, of the first of the given kinds that has one. */
  function Search(n: nat, kinds: seq<nat>, offset: nat): (d: Decoded) {
    if kinds == [] then Undecoded
    else if Covers(n, kinds[0], offset) then RegAt(kinds[0], offset - Lo(kinds[0]))
    else Search(n, kinds[1..], offset)
  }

  function Decode(n: nat, offset: nat): (d: Decoded) { Search(n, TABLE, offset) }

  method DecodeOffset(n: nat, offset: nat) returns (d: Decoded)
    ensures d == Decode(n, offset)
  {
    assert TABLE[0..] == TABLE;
    for k := 0 to |TABLE|
      invariant Decode(n, offset) == Search(n, TABLE[k..], offset)
    {
      var kind := TABLE[k];
      if Covers(n, kind, offset) { return RegAt(kind, offset - Lo(kind)); }
      assert TABLE[k..][1..] == TABLE[k + 1..];
    }
    return Undecoded;
  }

  lemma SearchUnfolds(n: nat, o: nat)
    ensures Decode(n, o) == if Covers(n, MSIP, o) then RegAt(MSIP, o - Lo(MSIP))
                            else if Covers(n, MTIMECMP, o) then RegAt(MTIMECMP, o - Lo(MTIMECMP))
                            else if Covers(n, MTIME, o) then RegAt(MTIME, o - Lo(MTIME))
                            else Undecoded
  {
    var last, rest := [MTIME], [MTIMECMP, MTIME];
    assert TABLE[1..] == rest && rest[1..] == last && last[1..] == [];
    assert Search(n, last, o) == if Covers(n, MTIME, o) then RegAt(MTIME, o - Lo(MTIME)) else Undecoded;
    assert Search(n, rest, o) ==
           if Covers(n, MTIMECMP, o) then RegAt(MTIMECMP, o - Lo(MTIMECMP)) else Search(n, last, o);
  }

  /** The registers of n harts. */
  predicate IsReg(n: nat, r: Reg) { r.kind < 3 && if r.kind == MTIME then r.hart == 0 else r.hart < n }

  function Size(r: Reg): (s: nat) { if r.kind == MSIP then 4 else 8 }

  function Base(r: Reg): (o: nat) {
    if r.kind == MSIP then 4 * r.hart else if r.kind == MTIMECMP then 0x4000 + 8 * r.hart else 0xbff8
  }

  /** Up to 4095 harts, the three kinds of register lie apart. */
  lemma DecodeCases(n: nat, o: nat)
    requires 1 <= n <= 4095
    ensures Decode(n, o) == if o < 4 * n then RegAt(MSIP, o)
                            else if 0x4000 <= o < 0x4000 + 8 * n then RegAt(MTIMECMP, o - 0x4000)
                            else if 0xbff8 <= o < 0xc000 then RegAt(MTIME, o - 0xbff8)
                            else Undecoded
  {
    SearchUnfolds(n, o);
  }

  lemma RegAtBase(n: nat, kind: nat, o: nat)
    requires kind < 3 && o < if kind == MSIP then 4 * n else if kind == MTIMECMP then 8 * n else 8
    ensures var d := RegAt(kind, o); IsReg(n, d.reg) && d.offset < Size(d.reg) && Lo(kind) + o == Base(d.reg) + d.offset
  {
  }

  lemma BaseRegAt(r: Reg, b: nat)
    requires b < Size(r) && r.kind < 3 && (r.kind == MTIME ==> r.hart == 0)
    ensures Lo(r.kind) <= Base(r) && RegAt(r.kind, Base(r) + b - Lo(r.kind)) == At(r, b)
  {
  }

  /** Up to 4095 harts, decoding is the exact inverse of laying the registers out. */
  lemma DecodeIsLayout(n: nat, o: nat, r: Reg, b: nat)
    requires 1 <= n <= 4095
    ensures Decode(n, o) == At(r, b) <==> IsReg(n, r) && b < Size(r) && o == Base(r) + b
  {
    DecodeCases(n, o);
    if Decode(n, o) == At(r, b) {
      RegAtBase(n, r.kind, o - Lo(r.kind));
    } else if IsReg(n, r) && b < Size(r) && o == Base(r) + b {
      BaseRegAt(r, b);
    }
  }

  /** Every byte of every register is reached at its offset. */
  ghost predicate LayoutHolds(n: nat) {
    forall r: Reg, b: nat :: IsReg(n, r) && b < Size(r) ==> Decode(n, (Base(r) + b) % UNS32) == At(r, b)
  }

  /** The block has room for 4095 harts and no more. */
  lemma LayoutHoldsExactly(n: nat)
    requires 1 <= n < UNS32
    ensures LayoutHolds(n) <==> n <= 4095
  {
    if n <= 4095 {
      forall r: Reg, b: nat | IsReg(n, r) && b < Size(r) ensures Decode(n, (Base(r) + b) % UNS32) == At(r, b) {
        DecodeIsLayout(n, Base(r) + b, r, b);
      }
    } else {
      LayoutBreaks(n);
    }
  }

  lemma LayoutBreaks(n: nat)
    requires 4096 <= n < UNS32
    ensures !LayoutHolds(n)
  {
    if n <= 0x4000_0000 {
      MtimeIsCovered(n);
      SearchUnfolds(n, 0xbff8);
      assert Decode(n, (Base(Reg(MTIME, 0)) + 0) % UNS32) != At(Reg(MTIME, 0), 0);
    } else {
      var r := Reg(MSIP, n - 1);
      assert IsReg(n, r) && 0 < Size(r);
      LastMsipIsUnreached(n, (Base(r) + 0) % UNS32);
    }
  }

  lemma LastMsipIsUnreached(n: nat, o: nat)
    requires 0x4000_0000 < n && o < UNS32
    ensures Decode(n, o) != At(Reg(MSIP, n - 1), 0)
  {
    SearchUnfolds(n, o);
  }

  lemma MtimeIsCovered(n: nat)
    requires 4096 <= n <= 0x4000_0000
    ensures Covers(n, MSIP, 0xbff8) || Covers(n, MTIMECMP, 0xbff8)
  {
  }

  lemma DecodedIsReg(n: nat, o: nat)
    requires 1 <= n <= 4095 && Decode(n, o).At?
    ensures IsReg(n, Decode(n, o).reg) && Decode(n, o).offset < Size(Decode(n, o).reg)
  {
    DecodeIsLayout(n, o, Decode(n, o).reg, Decode(n, o).offset);
  }

  lemma DecodedAt(n: nat, o: nat)
    requires 1 <= n <= 4095 && Decode(n, o).At?
    ensures o == Base(Decode(n, o).reg) + Decode(n, o).offset < 0xc000
    ensures Decode(n, o).offset < Size(Decode(n, o).reg)
  {
    DecodeIsLayout(n, o, Decode(n, o).reg, Decode(n, o).offset);
  }

  // ----- whole registers -----

  predicate Fits(h: seq<Hart>) { 1 <= |h| <= 4095 }

  function MsipWord(msip: bool): (w: Word) { [if msip then 1 else 0, 0, 0, 0, 0, 0, 0, 0] }

  /** The value of a register; mtime is that of the hart which makes the access. */
  function Read(h: seq<Hart>, context: nat, r: Reg): (w: Word)
    requires IsReg(|h|, r) && context < |h|
  {
    if r.kind == MSIP then MsipWord(h[r.hart].msip)
    else if r.kind == MTIMECMP then h[r.hart].mtimecmp
    else h[context].mtime
  }

  /** A register written back; mtime is written in every hart. */
  function Commit(h: seq<Hart>, r: Reg, w: Word): (h': seq<Hart>)
    requires IsReg(|h|, r)
    ensures |h'| == |h|
  {
    if r.kind == MSIP then h[r.hart := h[r.hart].(msip := w[0] % 2 == 1)]
    else if r.kind == MTIMECMP then h[r.hart := h[r.hart].(mtimecmp := w)]
    else seq(|h|, i requires 0 <= i < |h| => h[i].(mtime := w))
  }

  /** Stands for the absence of a register. */
  const NO_REG: Reg := Reg(3, 0)

  function Flush(h: seq<Hart>, r: Reg, w: Word): (h': seq<Hart>)
    requires r == NO_REG || IsReg(|h|, r)
    ensures |h'| == |h|
  {
    if r == NO_REG then h else Commit(h, r, w)
  }

  function Logged(log: seq<Reg>, r: Reg): (log': seq<Reg>) { if r == NO_REG then log else log + [r] }

  // ----- one byte at a time -----

  function Put(w: Word, k: nat, b: Byte): (r: Word)
    requires k < 8
  {
    w[k := b]
  }

  function StoreByte(h: seq<Hart>, context: nat, o: nat, b: Byte): (h': seq<Hart>)
    requires Fits(h) && context < |h|
    ensures |h'| == |h|
  {
    var d := Decode(|h|, o);
    if d.Undecoded? then h else
    DecodedIsReg(|h|, o);
    Commit(h, d.reg, Put(Read(h, context, d.reg), d.offset, b))
  }

  function Offset(start: nat, i: nat): (o: nat) { (start + i) % UNS32 }

  /** The reference: every byte is a read-modify-write of its register. */
  function Store(h: seq<Hart>, context: nat, start: nat, data: seq<Byte>): (h': seq<Hart>)
    requires Fits(h) && context < |h|
    ensures |h'| == |h|
  {
    if data == [] then h else
    var k := |data| - 1;
    StoreByte(Store(h, context, start, data[..k]), context, Offset(start, k), data[k])
  }

  /** How many leading bytes of an access decode. */
  function Reach(n: nat, start: nat, len: nat): (k: nat)
    ensures k <= len
  {
    if len == 0 then 0 else
    var k := Reach(n, start, len - 1);
    if k == len - 1 && Decode(n, Offset(start, k)).At? then len else k
  }

  lemma {:induction false} ReachStops(n: nat, start: nat, i: nat, len: nat)
    requires i < len && Reach(n, start, i) == i && Decode(n, Offset(start, i)).Undecoded?
    ensures Reach(n, start, len) == i
    decreases len
  {
    if i < len - 1 { ReachStops(n, start, i, len - 1); }
  }

  /** Registers touched by the first k bytes, in order. */
  function Touched(n: nat, start: nat, k: nat): (rs: seq<Reg>) {
    if k == 0 then [] else
    var rs := Touched(n, start, k - 1);
    var d := Decode(n, Offset(start, k - 1));
    if d.Undecoded? || (rs != [] && rs[|rs| - 1] == d.reg) then rs else rs + [d.reg]
  }

  /** The byte that a context reads at an offset. */
  function Peek(h: seq<Hart>, context: nat, o: nat): (b: Byte)
    requires Fits(h) && context < |h|
  {
    var d := Decode(|h|, o);
    if d.Undecoded? then 0 else
    DecodedIsReg(|h|, o);
    Read(h, context, d.reg)[d.offset]
  }

  /** The reference for reads: one byte after another. */
  function Load(h: seq<Hart>, context: nat, start: nat, k: nat): (value: seq<Byte>)
    requires Fits(h) && context < |h|
    ensures |value| == k
  {
    if k == 0 then [] else Load(h, context, start, k - 1) + [Peek(h, context, Offset(start, k - 1))]
  }

  // ----- the device -----

  class Block {
    var harts: array<Hart>

    ghost predicate Valid()
      reads this
    {
      1 <= harts.Length <= 4095
    }

    ghost function View(): (h: seq<Hart>)
      reads this, harts
    {
      harts[..]
    }

    constructor (initial: seq<Hart>)
      requires 1 <= |initial| <= 4095
      ensures Valid() && View() == initial && fresh(harts)
    {
      harts := new Hart[|initial|](i requires 0 <= i < |initial| => initial[i]);
    }

    method ReadRegister(context: nat, r: Reg) returns (w: Word)
      requires Valid() && context < harts.Length && IsReg(harts.Length, r)
      ensures w == Read(View(), context, r)
    {
      if r.kind == MSIP {
        w := MsipWord(harts[r.hart].msip);
      } else if r.kind == MTIMECMP {
        w := harts[r.hart].mtimecmp;
      } else {
        w := harts[context].mtime;
      }
    }

    method WriteMtime(w: Word)
      requires Valid()
      modifies harts
      ensures View() == Commit(old(View()), Reg(MTIME, 0), w)
    {
      ghost var was := View();
      for i := 0 to harts.Length
        invariant forall j :: 0 <= j < i ==> harts[j] == was[j].(mtime := w)
        invariant forall j :: i <= j < harts.Length ==> harts[j] == was[j]
      {
        harts[i] := harts[i].(mtime := w);
      }
      assert View() == Commit(was, Reg(MTIME, 0), w);
    }

    /** Writing back no register is ignored. */
    method WriteRegister(r: Reg, w: Word, ghost log: seq<Reg>) returns (ghost commits: seq<Reg>)
      requires Valid() && (r == NO_REG || IsReg(harts.Length, r))
      modifies harts
      ensures View() == Flush(old(View()), r, w) && commits == Logged(log, r)
    {
      commits := Logged(log, r);
      if r.kind == MSIP {
        harts[r.hart] := harts[r.hart].(msip := w[0] % 2 == 1);
      } else if r.kind == MTIMECMP {
        harts[r.hart] := harts[r.hart].(mtimecmp := w);
      } else if r.kind == MTIME {
        WriteMtime(w);
      }
    }

    /** Each register is read once; bytes from the first undecoded one on are not read. */
    method ReadBytes(context: nat, start: nat, bytes: nat) returns (value: seq<Byte>, fault: bool)
      requires Valid() && context < harts.Length
      ensures var k := Reach(harts.Length, start, bytes);
              value == Load(View(), context, start, k) && (fault <==> k < bytes)
    {
      var prev := NO_REG;
      var reg: Word := MsipWord(false);
      value, fault := [], false;
      while |value| < bytes
        invariant |value| <= bytes && Reach(harts.Length, start, |value|) == |value|
        invariant prev == NO_REG || (IsReg(harts.Length, prev) && reg == Read(View(), context, prev))
        invariant value == Load(View(), context, start, |value|)
      {
        var this_ := DecodeOffset(harts.Length, Offset(start, |value|));
        if this_.Undecoded? {
          ReachStops(harts.Length, start, |value|, bytes);
          fault := true;
          return;
        }
        DecodedIsReg(harts.Length, Offset(start, |value|));
        if prev != this_.reg {
          reg := ReadRegister(context, this_.reg);
          prev := this_.reg;
        }
        value := value + [reg[this_.offset]];
      }
    }

    /**
     * A register is written back when the access moves on to another one, at an undecoded
     * byte, and at the end. The state is that of storing the decoded prefix byte by byte,
     * and each touched register is committed once.
     */
    method WriteBytes(context: nat, start: nat, value: seq<Byte>) returns (fault: bool, ghost commits: seq<Reg>)
      requires Valid() && context < harts.Length
      modifies harts
      ensures var k := Reach(harts.Length, start, |value|);
              View() == Store(old(View()), context, start, value[..k]) &&
              commits == Touched(harts.Length, start, k) && (fault <==> k < |value|)
    {
      var prev := NO_REG;
      var reg: Word := MsipWord(false);
      var i := 0;
      ghost var was := View();
      commits, fault := [], false;
      while i < |value| && !fault
        invariant i <= |value| && Reach(harts.Length, start, i) == i
        invariant fault ==> i < |value| && Decode(harts.Length, Offset(start, i)).Undecoded?
        invariant Written(was, context, start, value, i, View(), prev, reg, commits)
        invariant prev == NO_REG && !fault ==> commits == []
        decreases |value| - i, !fault
      {
        var this_ := DecodeOffset(harts.Length, Offset(start, i));
        if this_.At? {
          DecodedIsReg(harts.Length, Offset(start, i));
          if prev != this_.reg {
            commits := WriteRegister(prev, reg, commits);
            reg := ReadRegister(context, this_.reg);
            prev := this_.reg;
            StartRegister(was, context, start, value, i, View(), reg, commits);
          } else {
            ContinueRegister(was, context, start, value, i, View(), reg, commits);
          }
          reg := Put(reg, this_.offset, value[i]);
          i := i + 1;
        } else {
          commits := WriteRegister(prev, reg, commits);
          prev := NO_REG;
          fault := true;
        }
      }
      if fault { ReachStops(harts.Length, start, i, |value|); }
      commits := WriteRegister(prev, reg, commits);
    }
  }

  /** The state of a write of i bytes: the merge buffer reg of register prev is not yet committed. */
  ghost predicate Written(was: seq<Hart>, context: nat, start: nat, value: seq<Byte>, i: nat,
                          h: seq<Hart>, prev: Reg, reg: Word, commits: seq<Reg>)
    requires Fits(was) && context < |was| && i <= |value|
  {
    |h| == |was| && (prev == NO_REG || IsReg(|h|, prev)) &&
    Logged(commits, prev) == Touched(|was|, start, i) &&
    Flush(h, prev, reg) == Store(was, context, start, value[..i])
  }

  lemma StoreStep(was: seq<Hart>, context: nat, start: nat, value: seq<Byte>, i: nat)
    requires Fits(was) && context < |was| && i < |value|
    ensures Store(was, context, start, value[..i + 1])
         == StoreByte(Store(was, context, start, value[..i]), context, Offset(start, i), value[i])
  {
    assert value[..i + 1][..i] == value[..i];
  }

  /** Reading back a committed register and committing it with one more byte is committing it once. */
  lemma CommitAgain(h: seq<Hart>, context: nat, r: Reg, w: Word, k: nat, b: Byte)
    requires IsReg(|h|, r) && context < |h| && k < Size(r)
    ensures Commit(Commit(h, r, w), r, Put(Read(Commit(h, r, w), context, r), k, b)) == Commit(h, r, Put(w, k, b))
  {
    assert Put(w, k, b)[0] == if k == 0 then b else w[0];
  }

  lemma StartRegister(was: seq<Hart>, context: nat, start: nat, value: seq<Byte>, i: nat, h: seq<Hart>, reg: Word,
      commits: seq<Reg>)
    requires Fits(was) && context < |was| && i < |value| && Decode(|was|, Offset(start, i)).At?
    requires var d := Decode(|was|, Offset(start, i));
             Written(was, context, start, value, i, h, NO_REG, reg, commits) && IsReg(|was|, d.reg) && d.offset < 8 &&
             reg == Read(h, context, d.reg) && (commits != [] ==> commits[|commits| - 1] != d.reg)
    ensures var d := Decode(|was|, Offset(start, i));
            Written(was, context, start, value, i + 1, h, d.reg, Put(reg, d.offset, value[i]), commits)
  {
    StoreStep(was, context, start, value, i);
  }

  lemma ContinueRegister(was: seq<Hart>, context: nat, start: nat, value: seq<Byte>, i: nat, h: seq<Hart>, reg: Word,
      commits: seq<Reg>)
    requires Fits(was) && context < |was| && i < |value| && Decode(|was|, Offset(start, i)).At?
    requires var d := Decode(|was|, Offset(start, i));
             Written(was, context, start, value, i, h, d.reg, reg, commits) && IsReg(|was|, d.reg) &&
             d.offset < Size(d.reg)
    ensures var d := Decode(|was|, Offset(start, i));
            Written(was, context, start, value, i + 1, h, d.reg, Put(reg, d.offset, value[i]), commits)
  {
    var d := Decode(|was|, Offset(start, i));
    StoreStep(was, context, start, value, i);
    CommitAgain(h, context, d.reg, reg, d.offset, value[i]);
  }

  // ----- each register once -----

  lemma OffsetNext(start: nat, i: nat)
    ensures Offset(start, 0) == start % UNS32
    ensures Offset(start, i) < 0xc000 ==> Offset(start, i + 1) == Offset(start, i) + 1
  {
  }

  /** A decoded access lies within the block, so its offsets do not wrap. */
  lemma {:induction false} ReachStays(n: nat, start: nat, len: nat)
    requires 1 <= n <= 4095 && Reach(n, start, len) == len > 0
    ensures Offset(start, len - 1) == Offset(start, 0) + len - 1 < 0xc000 && Decode(n, Offset(start, len - 1)).At?
  {
    if len > 1 {
      ReachStays(n, start, len - 1);
      OffsetNext(start, len - 2);
    }
    DecodedAt(n, Offset(start, len - 1));
  }

  /** The registers a decoded access touches come at increasing addresses, so none is committed twice. */
  lemma {:induction false} TouchedOnce(n: nat, start: nat, k: nat)
    requires 1 <= n <= 4095 && Reach(n, start, k) == k
    ensures var rs := Touched(n, start, k);
            (forall i, j :: 0 <= i < j < |rs| ==> Base(rs[i]) < Base(rs[j])) &&
            (k > 0 ==> rs != [] && rs[|rs| - 1] == Decode(n, Offset(start, k - 1)).reg)
  {
    if k > 1 {
      TouchedOnce(n, start, k - 1);
      NextRegister(n, start, k);
    }
  }

  lemma {:induction false} TouchedExactly(n: nat, start: nat, k: nat, r: Reg)
    ensures r in Touched(n, start, k) <==> exists i :: 0 <= i < k && DecodesTo(n, Offset(start, i), r)
  {
    if k > 0 {
      TouchedExactly(n, start, k - 1, r);
      TouchedNext(n, start, k - 1, r);
      if DecodesTo(n, Offset(start, k - 1), r) { assert 0 <= k - 1 < k; }
    }
  }

  ghost predicate DecodesTo(n: nat, o: nat, r: Reg) { Decode(n, o).At? && Decode(n, o).reg == r }

  /** The next byte of an access lies in the same register or in one at a higher address. */
  lemma NextRegister(n: nat, start: nat, k: nat)
    requires 1 <= n <= 4095 && k > 1 && Reach(n, start, k) == k
    ensures var p, d := Decode(n, Offset(start, k - 2)), Decode(n, Offset(start, k - 1));
            p.At? && d.At? && (p.reg == d.reg || Base(p.reg) < Base(d.reg))
  {
    ReachStays(n, start, k - 1);
    ReachStays(n, start, k);
    DecodedAt(n, Offset(start, k - 2));
    DecodedAt(n, Offset(start, k - 1));
    DecodedIsReg(n, Offset(start, k - 2));
    DecodedIsReg(n, Offset(start, k - 1));
  }

  // ----- the block as a flat memory -----

  /** A byte as its register keeps it: msip keeps bit 0 alone. */
  function Kept(d: Decoded, b: Byte): (r: Byte)
    requires d.At?
  {
    if d.reg.kind == MSIP then (if d.offset == 0 then b % 2 else 0) else b
  }

  lemma PutAt(w: Word, k: nat, b: Byte, j: nat)
    requires k < 8 && j < 8
    ensures Put(w, k, b)[j] == if j == k then b else w[j]
  {
  }

  /** Committing a register with one byte replaced changes that byte, of that register, as it is kept. */
  lemma CommitPeek(h: seq<Hart>, context: nat, d: Decoded, b: Byte, e: Decoded)
    requires d.At? && e.At? && IsReg(|h|, d.reg) && IsReg(|h|, e.reg) && context < |h|
    requires d.offset < Size(d.reg) && e.offset < Size(e.reg)
    ensures var h' := Commit(h, d.reg, Put(Read(h, context, d.reg), d.offset, b));
            Read(h', context, e.reg)[e.offset] == if d == e then Kept(d, b) else Read(h, context, e.reg)[e.offset]
  {
    PutAt(Read(h, context, d.reg), d.offset, b, 0);
    PutAt(Read(h, context, d.reg), d.offset, b, e.offset);
  }

  lemma StoreBytePeek(h: seq<Hart>, context: nat, o: nat, b: Byte, q: nat)
    requires Fits(h) && context < |h| && Decode(|h|, o).At? && Decode(|h|, q).At?
    ensures Peek(StoreByte(h, context, o, b), context, q) ==
            if q == o then Kept(Decode(|h|, q), b) else Peek(h, context, q)
  {
    var n := |h|;
    DecodedIsReg(n, o);
    DecodedIsReg(n, q);
    assert Decode(n, o) == Decode(n, q) ==> o == q by { DecodedAt(n, o); DecodedAt(n, q); }
    CommitPeek(h, context, Decode(n, o), b, Decode(n, q));
  }

  /** Seen as memory, a decoded store replaces exactly the bytes it covers. */
  lemma {:induction false} StoreImage(h: seq<Hart>, context: nat, start: nat, data: seq<Byte>, q: nat)
    requires Fits(h) && context < |h| && Reach(|h|, start, |data|) == |data| && Decode(|h|, q).At?
    ensures var o := Offset(start, 0);
            Peek(Store(h, context, start, data), context, q) ==
            if o <= q < o + |data| then Kept(Decode(|h|, q), data[q - o]) else Peek(h, context, q)
  {
    if data != [] {
      var k := |data| - 1;
      StoreImage(h, context, start, data[..k], q);
      ReachStays(|h|, start, |data|);
      StoreBytePeek(Store(h, context, start, data[..k]), context, Offset(start, k), data[k], q);
    }
  }

  predicate AllAgree(h: seq<Hart>, context: nat)
    requires context < |h|
  {
    forall j :: 0 <= j < |h| ==> h[j].mtime == h[context].mtime
  }

  predicate SameMtime(h: seq<Hart>, h': seq<Hart>) {
    |h| == |h'| && forall j :: 0 <= j < |h| ==> h'[j].mtime == h[j].mtime
  }

  lemma MtimeStep(h: seq<Hart>, context: nat, o: nat, b: Byte)
    requires Fits(h) && context < |h|
    ensures var h' := StoreByte(h, context, o, b);
            if DecodesTo(|h|, o, Reg(MTIME, 0)) then AllAgree(h', context) else SameMtime(h, h')
  {
    if Decode(|h|, o).At? { DecodedIsReg(|h|, o); }
  }

  lemma TouchedNext(n: nat, start: nat, k: nat, r: Reg)
    ensures r in Touched(n, start, k + 1) <==> r in Touched(n, start, k) || DecodesTo(n, Offset(start, k), r)
  {
  }

  lemma SameMtimeNext(h: seq<Hart>, h1: seq<Hart>, h2: seq<Hart>, context: nat)
    requires SameMtime(h1, h2) && context < |h1|
    ensures AllAgree(h1, context) ==> AllAgree(h2, context)
    ensures SameMtime(h, h1) ==> SameMtime(h, h2)
  {
  }

  /** After a store that touches mtime all harts agree on it; any other leaves every hart its own. */
  lemma {:induction false} MtimeIsShared(h: seq<Hart>, context: nat, start: nat, data: seq<Byte>)
    requires Fits(h) && context < |h|
    ensures var h' := Store(h, context, start, data);
            if Reg(MTIME, 0) in Touched(|h|, start, |data|) then AllAgree(h', context) else SameMtime(h, h')
  {
    if data != [] {
      var k := |data| - 1;
      var h1 := Store(h, context, start, data[..k]);
      MtimeIsShared(h, context, start, data[..k]);
      MtimeStep(h1, context, Offset(start, k), data[k]);
      TouchedNext(|h|, start, k, Reg(MTIME, 0));
      if !DecodesTo(|h|, Offset(start, k), Reg(MTIME, 0)) {
        SameMtimeNext(h, h1, Store(h, context, start, data), context);
      }
    }
  }

  lemma {:induction false} LoadAt(h: seq<Hart>, context: nat, start: nat, k: nat, i: nat)
    requires Fits(h) && context < |h| && i < k
    ensures Load(h, context, start, k)[i] == Peek(h, context, Offset(start, i))
  {
    if i < k - 1 { LoadAt(h, context, start, k - 1, i); }
  }

  lemma {:induction false} ReachPrefix(n: nat, start: nat, len: nat, i: nat)
    requires Reach(n, start, len) == len && i <= len
    ensures Reach(n, start, i) == i
  {
    if i < len { ReachPrefix(n, start, len - 1, i); }
  }

  /** Reading an access back gives what was written, as it is kept. */
  lemma WriteThenRead(h: seq<Hart>, context: nat, start: nat, data: seq<Byte>, i: nat)
    requires Fits(h) && context < |h| && Reach(|h|, start, |data|) == |data| && i < |data|
    ensures Decode(|h|, Offset(start, i)).At?
    ensures Load(Store(h, context, start, data), context, start, |data|)[i] ==
            Kept(Decode(|h|, Offset(start, i)), data[i])
  {
    ReachPrefix(|h|, start, |data|, i + 1);
    ReachStays(|h|, start, i + 1);
    LoadAt(Store(h, context, start, data), context, start, |data|, i);
    StoreImage(h, context, start, data, Offset(start, i));
  }

  /** The bytes of the block: msip words, mtimecmp double words, and the mtime of the hart that reads. */
  lemma PeekAt(h: seq<Hart>, context: nat, k: nat, b: nat)
    requires Fits(h) && context < |h| && k < |h| && b < 8
    ensures b < 4 ==> Peek(h, context, 4 * k + b) == if b == 0 && h[k].msip then 1 else 0
    ensures Peek(h, context, 0x4000 + 8 * k + b) == h[k].mtimecmp[b]
    ensures Peek(h, context, 0xbff8 + b) == h[context].mtime[b]
  {
    if b < 4 { DecodeIsLayout(|h|, 4 * k + b, Reg(MSIP, k), b); }
    DecodeIsLayout(|h|, 0x4000 + 8 * k + b, Reg(MTIMECMP, k), b);
    DecodeIsLayout(|h|, 0xbff8 + b, Reg(MTIME, 0), b);
  }

  /** There is nothing between and beyond the registers. */
  lemma Gaps(n: nat, o: nat)
    requires 1 <= n <= 4095
    ensures Decode(n, o).Undecoded? <==> !(o < 4 * n || 0x4000 <= o < 0x4000 + 8 * n || 0xbff8 <= o < 0xc000)
  {
    DecodeCases(n, o);
  }
}
