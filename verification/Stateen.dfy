/**
 * The Smstateen registers mstateen, hstateen and sstateen: what each level shows, and what
 * it grants. A register or mask is the set of the positions of its one bits.
 */
module Stateen {

  type Word = set<nat>

  /** Bit 63: whether the next register down may be used at all. */
  const XSTATEEN: nat := 63

  /** The three registers of one index; also the implemented bits of each. */
  datatype Regs = Regs(m: Word, h: Word, s: Word)

  /** The state an access is made in: by the simulator itself, and in a virtual mode. */
  datatype Access = Access(artifact: bool, virtual: bool)

  // ----- visibility -----

  function ReadM(k: Regs, r: Regs): (v: Word) { r.m * k.m }

  /** Bits that mstateen delegates. */
  function Delegated(k: Regs, r: Regs): (v: Word) {
    if XSTATEEN in ReadM(k, r) then ReadM(k, r) else {}
  }

  function MaskH(k: Regs, r: Regs, a: Access): (v: Word) {
    if a.artifact then k.h else k.h * Delegated(k, r)
  }

  function ReadH(k: Regs, r: Regs, a: Access): (v: Word) { r.h * MaskH(k, r, a) }

  function MaskS(k: Regs, r: Regs, a: Access): (v: Word) {
    if a.artifact then k.s
    else if !a.virtual then k.s * Delegated(k, r)
    else k.s * ReadH(k, r, a)
  }

  function ReadS(k: Regs, r: Regs, a: Access): (v: Word) { r.s * MaskS(k, r, a) }

  // ----- writes -----

  /** Bits of v where the mask w is set, and of the previous value elsewhere. */
  function Merge(v: Word, was: Word, w: Word): (r: Word) { v * w + (was - w) }

  /** A write of value v to the half or the whole of a register that lanes selects. */
  datatype Op =
    | WriteM(v: Word, lanes: Word)
    | WriteH(v: Word, lanes: Word)
    | WriteS(v: Word, lanes: Word)

  function Apply(k: Regs, r: Regs, a: Access, op: Op): (r': Regs) {
    match op
    case WriteM(v, lanes) => r.(m := Merge(v, r.m, k.m * lanes))
    case WriteH(v, lanes) => r.(h := Merge(v, r.h, MaskH(k, r, a) * lanes))
    case WriteS(v, lanes) => r.(s := Merge(v, r.s, MaskS(k, r, a) * lanes))
  }

  function Run(k: Regs, r: Regs, run: seq<(Access, Op)>): (r': Regs) {
    if run == [] then r else
    var (a, op) := run[|run| - 1];
    Apply(k, Run(k, r, run[..|run| - 1]), a, op)
  }

  lemma MergeVisible(v: Word, o: Word, w: Word, lanes: Word)
    ensures Merge(v, o, w * lanes) * w == Merge(v * w, o * w, lanes)
  {
  }

  /** After a write, a register reads as before but for the written lanes that are visible. */
  lemma WriteThenRead(k: Regs, r: Regs, a: Access, v: Word, lanes: Word)
    ensures ReadM(k, Apply(k, r, a, WriteM(v, lanes))) == Merge(v * k.m, ReadM(k, r), lanes)
    ensures ReadH(k, Apply(k, r, a, WriteH(v, lanes)), a) == Merge(v * MaskH(k, r, a), ReadH(k, r, a), lanes)
    ensures ReadS(k, Apply(k, r, a, WriteS(v, lanes)), a) == Merge(v * MaskS(k, r, a), ReadS(k, r, a), lanes)
  {
    MergeVisible(v, r.m, k.m, lanes);
    MergeVisible(v, r.h, MaskH(k, r, a), lanes);
    MergeVisible(v, r.s, MaskS(k, r, a), lanes);
  }

  // ----- the hierarchy -----

  datatype Mode = U | S | M

  /** Whether a feature controlled by a bit may be used in a mode. */
  function Enabled(k: Regs, r: Regs, a: Access, mode: Mode, supervisor: bool, bit: nat): (ok: bool) {
    if mode == M then true
    else if bit !in ReadM(k, r) then false
    else if a.virtual && bit !in ReadH(k, r, a) then false
    else if mode != U || !supervisor then true
    else bit in ReadS(k, r, a)
  }

  /** What a register shows, the registers above it show; what sstateen shows to VS it shows to HS. */
  lemma ShownIsShownAbove(k: Regs, r: Regs, a: Access)
    requires !a.artifact
    ensures ReadH(k, r, a) <= ReadM(k, r) && ReadS(k, r, a) <= ReadM(k, r)
    ensures a.virtual ==> ReadS(k, r, a) <= ReadH(k, r, a)
    ensures ReadS(k, r, Access(false, true)) <= ReadS(k, r, Access(false, false))
  {
    assert Delegated(k, r) <= ReadM(k, r);
    assert ReadH(k, r, a) <= Delegated(k, r);
  }

  /**
   * A feature granted to a mode is granted to every mode above it: U, then S, then M;
   * VU, then VS, then HS; and what is granted to VU is granted to U.
   */
  lemma GrantsAreHierarchical(k: Regs, r: Regs, supervisor: bool, bit: nat)
    ensures var n, v := Access(false, false), Access(false, true);
            (Enabled(k, r, n, U, supervisor, bit) ==> Enabled(k, r, n, S, supervisor, bit)) &&
            (Enabled(k, r, n, S, supervisor, bit) ==> Enabled(k, r, n, M, supervisor, bit)) &&
            (Enabled(k, r, v, U, supervisor, bit) ==> Enabled(k, r, v, S, supervisor, bit)) &&
            (Enabled(k, r, v, S, supervisor, bit) ==> Enabled(k, r, n, S, supervisor, bit)) &&
            (Enabled(k, r, v, U, supervisor, bit) ==> Enabled(k, r, n, U, supervisor, bit))
  {
    ShownIsShownAbove(k, r, Access(false, true));
  }

  /** The grant of each mode is decided by the lowest register that the mode is subject to. */
  lemma GrantIsLowestRegister(k: Regs, r: Regs, bit: nat)
    ensures var n, v := Access(false, false), Access(false, true);
            (Enabled(k, r, n, S, true, bit) <==> bit in ReadM(k, r)) &&
            (Enabled(k, r, v, S, true, bit) <==> bit in ReadH(k, r, v)) &&
            (Enabled(k, r, n, U, true, bit) <==> bit in ReadS(k, r, n)) &&
            (Enabled(k, r, v, U, true, bit) <==> bit in ReadS(k, r, v))
  {
    ShownIsShownAbove(k, r, Access(false, false));
    ShownIsShownAbove(k, r, Access(false, true));
  }

  // ----- visibility and grants, bit by bit -----

  /** A bit is both stored and implemented. */
  predicate Holds(stored: Word, implemented: Word, b: nat) { b in stored && b in implemented }

  /** mstateen passes bit b on: it holds b, and bit 63. */
  predicate PassesM(k: Regs, r: Regs, b: nat) { Holds(r.m, k.m, b) && Holds(r.m, k.m, 63) }

  /** What a program reads, from the stored and implemented bits alone. */
  lemma ShownExactly(k: Regs, r: Regs, b: nat)
    ensures b in ReadM(k, r) <==> Holds(r.m, k.m, b)
    ensures b in ReadH(k, r, Access(false, false)) <==> Holds(r.h, k.h, b) && PassesM(k, r, b)
    ensures b in ReadH(k, r, Access(false, true)) <==> Holds(r.h, k.h, b) && PassesM(k, r, b)
    ensures b in ReadS(k, r, Access(false, false)) <==> Holds(r.s, k.s, b) && PassesM(k, r, b)
    ensures b in ReadS(k, r, Access(false, true)) <==> Holds(r.s, k.s, b) && Holds(r.h, k.h, b) && PassesM(k, r, b)
  {
  }

  /** The simulator itself sees whatever is stored and implemented. */
  lemma ArtifactSeesAll(k: Regs, r: Regs, b: nat, virtual: bool)
    ensures b in ReadH(k, r, Access(true, virtual)) <==> Holds(r.h, k.h, b)
    ensures b in ReadS(k, r, Access(true, virtual)) <==> Holds(r.s, k.s, b)
  {
  }

  /** What is granted to each mode, from the stored and implemented bits alone. */
  lemma GrantsExactly(k: Regs, r: Regs, supervisor: bool, b: nat)
    ensures var n, v := Access(false, false), Access(false, true);
            Enabled(k, r, n, M, supervisor, b) && Enabled(k, r, v, M, supervisor, b) &&
            (Enabled(k, r, n, S, supervisor, b) <==> Holds(r.m, k.m, b)) &&
            (Enabled(k, r, v, S, supervisor, b) <==> Holds(r.h, k.h, b) && PassesM(k, r, b)) &&
            (Enabled(k, r, n, U, true, b) <==> Holds(r.s, k.s, b) && PassesM(k, r, b)) &&
            (Enabled(k, r, v, U, true, b) <==> Holds(r.s, k.s, b) && Holds(r.h, k.h, b) && PassesM(k, r, b)) &&
            (Enabled(k, r, n, U, false, b) <==> Holds(r.m, k.m, b)) &&
            (Enabled(k, r, v, U, false, b) <==> Holds(r.h, k.h, b) && PassesM(k, r, b))
  {
    ShownExactly(k, r, b);
  }

  /** A program write stores exactly the written lanes that are implemented and passed on, and leaves other bits. */
  lemma StoresExactly(k: Regs, r: Regs, virtual: bool, v: Word, lanes: Word, b: nat)
    ensures var a := Access(false, virtual);
            (b in Apply(k, r, a, WriteM(v, lanes)).m <==> if b in lanes && b in k.m then b in v else b in r.m) &&
            (b in Apply(k, r, a, WriteH(v, lanes)).h <==>
               if b in lanes && b in k.h && PassesM(k, r, b) then b in v else b in r.h) &&
            (b in Apply(k, r, a, WriteS(v, lanes)).s <==>
               if b in lanes && b in k.s && PassesM(k, r, b) && (virtual ==> Holds(r.h, k.h, b)) then b in v
               else b in r.s)
  {
  }

  // ----- hidden bits over whole runs -----

  /** The run never writes bit b of hstateen while it is visible. */
  ghost predicate HiddenFromH(k: Regs, r: Regs, run: seq<(Access, Op)>, b: nat) {
    forall i :: 0 <= i < |run| && run[i].1.WriteH? ==> b !in MaskH(k, Run(k, r, run[..i]), run[i].0)
  }

  /** Likewise for sstateen. */
  ghost predicate HiddenFromS(k: Regs, r: Regs, run: seq<(Access, Op)>, b: nat) {
    forall i :: 0 <= i < |run| && run[i].1.WriteS? ==> b !in MaskS(k, Run(k, r, run[..i]), run[i].0)
  }

  lemma PrefixHidden(k: Regs, r: Regs, run: seq<(Access, Op)>, b: nat)
    requires run != []
    ensures HiddenFromH(k, r, run, b) ==> HiddenFromH(k, r, run[..|run| - 1], b)
    ensures HiddenFromS(k, r, run, b) ==> HiddenFromS(k, r, run[..|run| - 1], b)
  {
    var p := run[..|run| - 1];
    forall i | 0 <= i < |p| ensures p[..i] == run[..i] { }
  }

  /** Hidden bits keep their stored value over every run, whatever else is written meanwhile. */
  lemma {:induction false} HiddenBitsKept(k: Regs, r: Regs, run: seq<(Access, Op)>, b: nat)
    ensures HiddenFromH(k, r, run, b) ==> (b in Run(k, r, run).h <==> b in r.h)
    ensures HiddenFromS(k, r, run, b) ==> (b in Run(k, r, run).s <==> b in r.s)
  {
    if run != [] {
      PrefixHidden(k, r, run, b);
      HiddenBitsKept(k, r, run[..|run| - 1], b);
    }
  }

  /** A bit of hstateen that was visible, hidden for every write since, and is visible again reads as it did. */
  lemma HiddenBitsReappear(k: Regs, r: Regs, run: seq<(Access, Op)>, a: Access, b: nat)
    requires HiddenFromH(k, r, run, b) && b in MaskH(k, r, a) && b in MaskH(k, Run(k, r, run), a)
    ensures b in ReadH(k, Run(k, r, run), a) <==> b in ReadH(k, r, a)
  {
    HiddenBitsKept(k, r, run, b);
  }

  /** Program writes of hstateen and sstateen, in any mode. */
  predicate BelowMachine(run: seq<(Access, Op)>) {
    forall i :: 0 <= i < |run| ==> !run[i].0.artifact && !run[i].1.WriteM?
  }

  /** Without delegation, no program write below Machine mode changes anything. */
  lemma {:induction false} UndelegatedRunIsInert(k: Regs, r: Regs, run: seq<(Access, Op)>)
    requires BelowMachine(run) && XSTATEEN !in ReadM(k, r)
    ensures Run(k, r, run) == r
  {
    if run != [] {
      UndelegatedRunIsInert(k, r, run[..|run| - 1]);
      var (a, op) := run[|run| - 1];
      assert MaskH(k, r, a) == {} && MaskS(k, r, a) == {};
      assert Apply(k, r, a, op) == r;
    }
  }

  /** Taking delegation away, letting programs write what they like, and giving it back restores all three registers. */
  lemma RevokeAndRestore(k: Regs, r: Regs, m: Access, run: seq<(Access, Op)>)
    requires BelowMachine(run) && WithinImplemented(k, r)
    ensures var hidden := Apply(k, r, m, WriteM({}, {XSTATEEN}));
            Apply(k, Run(k, hidden, run), m, WriteM(r.m, {XSTATEEN})) == r
  {
    var hidden := Apply(k, r, m, WriteM({}, {XSTATEEN}));
    UndelegatedRunIsInert(k, hidden, run);
    assert Merge(r.m, hidden.m, k.m * {XSTATEEN}) == r.m;
  }

  // ----- implemented bits -----

  /** A bit registered for a feature: at S level when Supervisor mode exists, at U level for features of User mode. */
  function Register(k: Regs, supervisor: bool, user: bool, bit: nat): (r: Regs) {
    var k1 := if supervisor then k.(m := k.m + {bit}, h := k.h + {bit}) else k;
    if user then k1.(m := k1.m + {bit}, s := k1.s + {bit}) else k1
  }

  function RegisterAll(supervisor: bool, bits: seq<(bool, nat)>): (k: Regs) {
    if bits == [] then Regs({}, {}, {}) else
    Register(RegisterAll(supervisor, bits[..|bits| - 1]), supervisor, bits[|bits| - 1].0, bits[|bits| - 1].1)
  }

  /**
   * However features are registered, mstateen implements every bit; with Supervisor mode, hstateen every bit of
   * sstateen.
   */
  lemma {:induction false} ImplementedNests(supervisor: bool, bits: seq<(bool, nat)>)
    ensures var k := RegisterAll(supervisor, bits);
            k.h <= k.m && k.s <= k.m && (supervisor ==> k.s <= k.h && k.h == k.m)
  {
    if bits != [] { ImplementedNests(supervisor, bits[..|bits| - 1]); }
  }

  /** Which bits each register implements, from the registrations alone. */
  lemma {:induction false} ImplementedExactly(supervisor: bool, bits: seq<(bool, nat)>, b: nat)
    ensures var k := RegisterAll(supervisor, bits);
            (b in k.m <==> exists i :: 0 <= i < |bits| && bits[i].1 == b && (supervisor || bits[i].0)) &&
            (b in k.h <==> supervisor && exists i :: 0 <= i < |bits| && bits[i].1 == b) &&
            (b in k.s <==> exists i :: 0 <= i < |bits| && bits[i].1 == b && bits[i].0)
  {
    if bits != [] {
      var p := bits[..|bits| - 1];
      ImplementedExactly(supervisor, p, b);
      assert forall i :: 0 <= i < |p| ==> p[i] == bits[i];
    }
  }

  /** Nothing is stored in bits that are not implemented. */
  ghost predicate WithinImplemented(k: Regs, r: Regs) { r.m <= k.m && r.h <= k.h && r.s <= k.s }

  lemma {:induction false} RunStaysImplemented(k: Regs, r: Regs, run: seq<(Access, Op)>)
    requires WithinImplemented(k, r)
    ensures WithinImplemented(k, Run(k, r, run))
  {
    if run != [] { RunStaysImplemented(k, r, run[..|run| - 1]); }
  }

  // ----- reset -----

  const ALL: Word := set i: nat | i < 64

  /** Reset writes zero to mstateen, then hstateen, then sstateen, outside virtual modes. */
  function Reset(k: Regs, r: Regs, artifact: bool): (r': Regs) {
    var a := Access(artifact, false);
    var r1 := Apply(k, r, a, WriteM({}, ALL));
    var r2 := Apply(k, r1, a, WriteH({}, ALL));
    Apply(k, r2, a, WriteS({}, ALL))
  }

  /**
   * A reset shows zeros everywhere, but it clears mstateen first and so writes the others
   * through empty masks: what hstateen and sstateen held is still stored, and shows again
   * as soon as mstateen delegates. They are cleared exactly for an artifact access or when
   * they were zero.
   */
  lemma ResetClearsOnlyMstateen(k: Regs, r: Regs, artifact: bool, a: Access)
    requires WithinImplemented(k, r) && k.m + k.h + k.s <= ALL && !a.artifact
    ensures var z := Reset(k, r, artifact);
            ReadM(k, z) == {} && ReadH(k, z, a) == {} && ReadS(k, z, a) == {} &&
            (artifact ==> z == Regs({}, {}, {})) && (!artifact ==> z == r.(m := {})) &&
            (z.h + z.s == {} <==> artifact || r.h + r.s == {})
  {
    var b := Access(artifact, false);
    var r1 := Apply(k, r, b, WriteM({}, ALL));
    assert k.m * ALL == k.m && k.h * ALL == k.h && k.s * ALL == k.s;
    assert r1 == r.(m := {});
    assert Delegated(k, r1) == {};
    var r2 := Apply(k, r1, b, WriteH({}, ALL));
    assert r2 == if artifact then r1.(h := {}) else r1;
    assert Delegated(k, r2) == {};
  }

  // ----- the register file -----

  /** The four indexed registers of each level, updated in place. */
  class StateenFile {
    const implemented: seq<Regs>
    var mstateen: array<Word>
    var hstateen: array<Word>
    var sstateen: array<Word>

    ghost predicate Valid()
      reads this
    {
      |implemented| == 4 && mstateen.Length == 4 && hstateen.Length == 4 && sstateen.Length == 4 &&
      mstateen != hstateen && mstateen != sstateen && hstateen != sstateen
    }

    function At(i: nat): (r: Regs)
      requires Valid() && i < 4
      reads this, mstateen, hstateen, sstateen
    {
      Regs(mstateen[i], hstateen[i], sstateen[i])
    }

    constructor (implemented: seq<Regs>)
      requires |implemented| == 4
      ensures Valid() && this.implemented == implemented && fresh(mstateen) && fresh(hstateen) && fresh(sstateen)
      ensures forall i :: 0 <= i < 4 ==> At(i) == Regs({}, {}, {})
    {
      this.implemented := implemented;
      mstateen := new Word[4](_ => {});
      hstateen := new Word[4](_ => {});
      sstateen := new Word[4](_ => {});
    }

    method WriteMstateen(i: nat, v: Word, lanes: Word, a: Access) returns (r: Word)
      requires Valid() && i < 4
      modifies mstateen
      ensures Valid() && At(i) == Apply(implemented[i], old(At(i)), a, WriteM(v, lanes))
      ensures forall j :: 0 <= j < 4 && j != i ==> At(j) == old(At(j))
      ensures r == ReadM(implemented[i], At(i)) * lanes
    {
      var w := implemented[i].m * lanes;
      mstateen[i] := Merge(v, mstateen[i], w);
      r := mstateen[i] * w;
    }

    method WriteHstateen(i: nat, v: Word, lanes: Word, a: Access) returns (r: Word)
      requires Valid() && i < 4
      modifies hstateen
      ensures Valid() && At(i) == Apply(implemented[i], old(At(i)), a, WriteH(v, lanes))
      ensures forall j :: 0 <= j < 4 && j != i ==> At(j) == old(At(j))
      ensures r == ReadH(implemented[i], At(i), a) * lanes
    {
      var w := MaskH(implemented[i], At(i), a) * lanes;
      hstateen[i] := Merge(v, hstateen[i], w);
      r := hstateen[i] * w;
    }

    method WriteSstateen(i: nat, v: Word, lanes: Word, a: Access) returns (r: Word)
      requires Valid() && i < 4
      modifies sstateen
      ensures Valid() && At(i) == Apply(implemented[i], old(At(i)), a, WriteS(v, lanes))
      ensures forall j :: 0 <= j < 4 && j != i ==> At(j) == old(At(j))
      ensures r == ReadS(implemented[i], At(i), a) * lanes
    {
      var w := MaskS(implemented[i], At(i), a) * lanes;
      sstateen[i] := Merge(v, sstateen[i], w);
      r := sstateen[i] * w;
    }
  }
}
