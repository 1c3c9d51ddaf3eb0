/** The tdata1 trigger register: its bit-field views, and legalisation of written values. */
module Tdata1 {
  import opened Bits
  import opened BitFields

  const TT_NONE: nat := 0
  const TT_ADMATCH: nat := 2
  const TT_ICOUNT: nat := 3
  const TT_INTERRUPT: nat := 4
  const TT_EXCEPTION: nat := 5
  const TT_MCONTROL6: nat := 6

  datatype Config = Config(
    rv32: bool,               // trigger registers are in their 32-bit view
    isaM: bool, isaS: bool, isaU: bool, isaH: bool,
    noHit: bool,              // hit fields not implemented
    dbg014: bool,             // debug version 0.14.0 or later
    dbg10: bool,              // debug version 1.0-STABLE or later
    matches: set<nat>,        // legal address match values
    maskmax: nat,             // mcontrol.maskmax
    version1: bool,           // tinfo.version is not zero
    types: set<nat>,          // tinfo.info
    mask: nat)                // hardware mask of writable tdata1 bits
  {
    predicate Valid() { maskmax < 64 && forall k :: k in types ==> k < 16 }
    /** Position of dmode; type lies above it. */
    function Top(): nat { if rv32 then 27 else 59 }
    function Xlen(): nat { if rv32 then 32 else 64 }
  }

  /** Modes in which a trigger is active. */
  datatype Modes = Modes(u: bool, s: bool, m: bool, vu: bool, vs: bool)

  const NO_MODES: Modes := Modes(false, false, false, false, false)

  /** tdata1 in unpacked form, with the fields of all trigger types. */
  datatype Unpacked = Unpacked(
    typ: nat, dmode: bool, modes: Modes, matching: nat, action: nat, size: nat, priv: nat,
    chain: bool, timing: bool, select: bool, hit0: bool, hit1: bool, nmi: bool,
    pending: bool, uncertain: bool, uncertainen: bool, count: nat)

  const CLEAR: Unpacked :=
    Unpacked(0, false, NO_MODES, 0, 0, 0, 0, false, false, false, false, false, false, false, false, false, 0)

  function N(b: bool): (n: nat) { if b then 1 else 0 }

  /** The four-bit modes field; bit 2 has no mode and serves other purposes. */
  function ModeBits(ms: Modes, bit2: bool): (n: nat) { N(ms.u) + 2 * N(ms.s) + 4 * N(bit2) + 8 * N(ms.m) }

  /** Modes of a raw field, restricted to those implemented. */
  function ComposeModes(cfg: Config, n: nat, vu: bool, vs: bool): (r: Modes) {
    Modes(n % 2 == 1 && cfg.isaU, n / 2 % 2 == 1 && cfg.isaS, n / 8 % 2 == 1 && cfg.isaM,
          vu && cfg.isaH, vs && cfg.isaH)
  }

  function Bit2(n: nat): (b: bool) { n / 4 % 2 == 1 }

  // ----- views -----

  const MCONTROL_32: Layout := [3, 4, 4, 1, 4, 2, 1, 1, 1, 6]
  const MCONTROL_64: Layout := [3, 4, 4, 1, 4, 2, 1, 1, 1, 2, 30, 6]
  const ICOUNT_32: Layout := [6, 4, 14, 1, 1, 1]
  const ICOUNT_64: Layout := [6, 4, 14, 1, 1, 1, 32]
  const ITRIGGER_32: Layout := [6, 4, 1, 1, 1, 13, 1]
  const ITRIGGER_64: Layout := [6, 4, 1, 1, 1, 45, 1]
  const MCONTROL6_NUMBERS: Layout := [3, 4, 4, 1, 4, 4]
  const MCONTROL6_FLAGS: Layout := [1, 1, 1, 1, 1, 1, 1]
  const MCONTROL6_32: Layout := MCONTROL6_NUMBERS + MCONTROL6_FLAGS
  const MCONTROL6_64: Layout := MCONTROL6_32 + [32]

  /** Fields below dmode, for each trigger type and register width. */
  function Body(cfg: Config, typ: nat): (l: Layout) {
    if typ == TT_ADMATCH then (if cfg.rv32 then MCONTROL_32 else MCONTROL_64)
    else if typ == TT_ICOUNT then (if cfg.rv32 then ICOUNT_32 else ICOUNT_64)
    else if typ == TT_INTERRUPT || typ == TT_EXCEPTION then (if cfg.rv32 then ITRIGGER_32 else ITRIGGER_64)
    else if typ == TT_MCONTROL6 then (if cfg.rv32 then MCONTROL6_32 else MCONTROL6_64)
    else [cfg.Top()]
  }

  /** Every view fills the bits below dmode exactly. */
  lemma BodyWidth(cfg: Config, typ: nat)
    ensures Width(Body(cfg, typ), 0) == cfg.Top()
  {
    var l := Body(cfg, typ);
    assert |l| > 12 ==> Width(l, 12) == l[12] + Width(l, 13);
    assert |l| > 10 ==> Width(l, 10) == l[10] + Width(l, 11);
    assert |l| > 8 ==> Width(l, 8) == l[8] + Width(l, 9);
    assert |l| > 6 ==> Width(l, 6) == l[6] + Width(l, 7);
    assert |l| > 4 ==> Width(l, 4) == l[4] + Width(l, 5);
    assert |l| > 2 ==> Width(l, 2) == l[2] + Width(l, 3);
  }

  /**
   * Bit positions of match, action and hit in address match triggers of type 2 and 6, and of count and hit in the
   * others.
   */
  lemma FieldPositions(cfg: Config)
    ensures var l := Body(cfg, TT_ADMATCH); Start(l, 2) == 7 && Start(l, 4) == 12 && Start(l, 8) == 20
    ensures var l := Body(cfg, TT_MCONTROL6); |l| > 12 && Start(l, 2) == 7 && Start(l, 4) == 12
    ensures var l := Body(cfg, TT_ICOUNT); Start(l, 1) == 6 && Start(l, 2) == 10 && Start(l, 3) == 24
    ensures var l := Body(cfg, TT_INTERRUPT);
            Start(l, 1) == 6 && Start(l, 2) == 10 && Start(l, 6) == if cfg.rv32 then 26 else 58
  {
    StartsOf(Body(cfg, TT_ADMATCH));
    StartsOf(Body(cfg, TT_MCONTROL6));
    StartsOf(Body(cfg, TT_ICOUNT));
    StartsOf(Body(cfg, TT_INTERRUPT));
  }

  lemma StartsOf(l: Layout)
    requires |l| >= 6
    ensures Start(l, 1) == l[0] && Start(l, 2) == l[0] + l[1] && Start(l, 3) == l[0] + l[1] + l[2]
    ensures Start(l, 4) == Start(l, 3) + l[3] && Start(l, 5) == Start(l, 4) + l[4] && Start(l, 6) == Start(l, 5) + l[5]
    ensures |l| >= 8 ==> Start(l, 8) == Start(l, 6) + l[6] + l[7]
  {
  }

  /** An unsupported match value reverts to the one the trigger holds. */
  function LegalMatch(cfg: Config, n: nat, was: nat): (r: nat) { if n in cfg.matches then n else was }

  /** Only implemented modes, and virtual ones only for types that have them. */
  predicate LegalModes(cfg: Config, ms: Modes, virtual: bool) {
    (ms.u ==> cfg.isaU) && (ms.s ==> cfg.isaS) && (ms.m ==> cfg.isaM) &&
    (ms.vu ==> cfg.isaH && virtual) && (ms.vs ==> cfg.isaH && virtual)
  }

  // ----- address/data match (type 2) -----

  function McontrolValues(cfg: Config, t: Unpacked): (fs: seq<nat>) {
    [t.priv, ModeBits(t.modes, false), t.matching, N(t.chain), t.action, t.size % 4, N(t.timing), N(t.select),
     N(t.hit0)]
      + (if cfg.rv32 then [cfg.maskmax] else [t.size / 4, 0, cfg.maskmax])
  }

  function McontrolFrom(cfg: Config, dmode: bool, f: seq<nat>, was: nat): (t: Unpacked)
    requires |f| >= 10
  {
    CLEAR.(typ := TT_ADMATCH, dmode := dmode, modes := ComposeModes(cfg, f[1], false, false),
           matching := LegalMatch(cfg, f[2], was), action := f[4], size := f[5] + (if cfg.rv32 then 0 else 4 * f[9]),
           priv := f[0], chain := f[3] == 1, timing := f[6] == 1, select := f[7] == 1, hit0 := f[8] == 1)
  }

  predicate McontrolLegal(cfg: Config, t: Unpacked) {
    LegalModes(cfg, t.modes, false) && t.matching < 16 && t.priv < 8 && t.size < (if cfg.rv32 then 4 else 16) &&
    t == CLEAR.(typ := TT_ADMATCH, dmode := t.dmode, modes := t.modes, matching := t.matching, action := t.action,
                size := t.size, priv := t.priv, chain := t.chain, timing := t.timing, select := t.select,
                hit0 := t.hit0)
  }

  // ----- instruction count (type 3) -----

  /** Bit 2 of the modes field is the pending flag from version 0.14.0. */
  function IcountValues(cfg: Config, t: Unpacked): (fs: seq<nat>) {
    [t.action, ModeBits(t.modes, cfg.dbg014 && t.pending), t.count, N(t.hit0), N(t.modes.vu), N(t.modes.vs)]
      + (if cfg.rv32 then [] else [0])
  }

  /** The count field is read-only one; the action is kept in four bits. */
  function IcountFrom(cfg: Config, dmode: bool, f: seq<nat>): (t: Unpacked)
    requires |f| >= 6
  {
    CLEAR.(typ := TT_ICOUNT, dmode := dmode, modes := ComposeModes(cfg, f[1], f[4] == 1, f[5] == 1),
           action := f[0] % 16, timing := true, hit0 := f[3] == 1, pending := cfg.dbg014 && Bit2(f[1]), count := 1)
  }

  predicate IcountLegal(cfg: Config, t: Unpacked) {
    LegalModes(cfg, t.modes, true) && (t.pending ==> cfg.dbg014) &&
    t == CLEAR.(typ := TT_ICOUNT, dmode := t.dmode, modes := t.modes, action := t.action, timing := true,
                hit0 := t.hit0, pending := t.pending, count := 1)
  }

  // ----- interrupt and exception (types 4 and 5) -----

  /** The nmi field belongs to the interrupt view from version 1.0, to the exception view before. */
  predicate HasNmi(cfg: Config, typ: nat) { cfg.dbg10 == (typ == TT_INTERRUPT) }

  function ItriggerValues(cfg: Config, t: Unpacked): (fs: seq<nat>) {
    [t.action, ModeBits(t.modes, false), N(HasNmi(cfg, t.typ) && t.nmi), N(t.modes.vu), N(t.modes.vs), 0, N(t.hit0)]
  }

  function ItriggerFrom(cfg: Config, typ: nat, dmode: bool, f: seq<nat>): (t: Unpacked)
    requires |f| >= 7
  {
    CLEAR.(typ := typ, dmode := dmode, modes := ComposeModes(cfg, f[1], f[3] == 1, f[4] == 1), action := f[0] % 16,
           timing := true, nmi := HasNmi(cfg, typ) && f[2] == 1, hit0 := f[6] == 1)
  }

  predicate ItriggerLegal(cfg: Config, t: Unpacked) {
    LegalModes(cfg, t.modes, true) && (t.nmi ==> HasNmi(cfg, t.typ)) &&
    t == CLEAR.(typ := t.typ, dmode := t.dmode, modes := t.modes, action := t.action, timing := true, hit0 := t.hit0,
                nmi := t.nmi)
  }

  // ----- address/data match (type 6) -----

  /** From tinfo version 1, bit 2 of the modes field is uncertainen and there is no timing field. */
  function Mcontrol6Numbers(cfg: Config, t: Unpacked): (fs: seq<nat>) {
    [t.priv, ModeBits(t.modes, cfg.version1 && t.uncertainen), t.matching, N(t.chain), t.action, t.size]
  }

  function Mcontrol6Flags(cfg: Config, t: Unpacked): (fs: seq<nat>) {
    [N(!cfg.version1 && t.timing), N(t.select), N(t.hit0), N(t.modes.vu), N(t.modes.vs), N(t.hit1), N(t.uncertain)]
  }

  function Mcontrol6Values(cfg: Config, t: Unpacked): (fs: seq<nat>) {
    var fs := Mcontrol6Numbers(cfg, t) + Mcontrol6Flags(cfg, t);
    if cfg.rv32 then fs else fs + [0]
  }

  function Mcontrol6From(cfg: Config, dmode: bool, f: seq<nat>, was: nat): (t: Unpacked)
    requires |f| >= 13
  {
    var v := cfg.version1;
    CLEAR.(typ := TT_MCONTROL6, dmode := dmode, modes := ComposeModes(cfg, f[1], f[9] == 1, f[10] == 1),
           matching := LegalMatch(cfg, f[2], was), action := f[4], size := if v then f[5] % 8 else f[5], priv := f[0],
           chain := f[3] == 1, timing := !v && f[6] == 1, select := f[7] == 1, hit0 := f[8] == 1,
           hit1 := v && f[11] == 1, uncertain := v && f[12] == 1, uncertainen := v && Bit2(f[1]))
  }

  predicate Mcontrol6Legal(cfg: Config, t: Unpacked) {
    LegalModes(cfg, t.modes, true) && t.matching < 16 && t.priv < 8 && t.size < (if cfg.version1 then 8 else 16) &&
    (t.hit1 || t.uncertain || t.uncertainen ==> cfg.version1) && (t.timing ==> !cfg.version1) &&
    t == CLEAR.(typ := TT_MCONTROL6, dmode := t.dmode, modes := t.modes, matching := t.matching, action := t.action,
                size := t.size, priv := t.priv, chain := t.chain, timing := t.timing, select := t.select,
                hit0 := t.hit0,
                hit1 := t.hit1, uncertain := t.uncertain, uncertainen := t.uncertainen)
  }

  // ----- packing -----

  predicate IsItrigger(typ: nat) { typ == TT_INTERRUPT || typ == TT_EXCEPTION }

  /** Values of the fields below dmode. */
  function Values(cfg: Config, t: Unpacked): (fs: seq<nat>)
    ensures |fs| == |Body(cfg, t.typ)|
  {
    if t.typ == TT_ADMATCH then McontrolValues(cfg, t)
    else if t.typ == TT_ICOUNT then IcountValues(cfg, t)
    else if IsItrigger(t.typ) then ItriggerValues(cfg, t)
    else if t.typ == TT_MCONTROL6 then Mcontrol6Values(cfg, t)
    else [0]
  }

  /** The register: fields of the view, then dmode, then the four-bit type. */
  function Pack(cfg: Config, t: Unpacked): (v: nat) {
    Join(Encode(Body(cfg, t.typ), 0, Values(cfg, t)), cfg.Top(), N(t.dmode) + 2 * t.typ)
  }

  // ----- unpacking -----

  function TypeOf(cfg: Config, v: nat): (t: nat)
    ensures t < 16
  {
    Shr(v, cfg.Top()) / 2 % 16
  }

  function DmodeOf(cfg: Config, v: nat): (b: bool) { Shr(v, cfg.Top()) % 2 == 1 }

  /** Type-specific fields, from the values f of the view. */
  function FromValues(cfg: Config, typ: nat, dmode: bool, f: seq<nat>, was: nat): (t: Unpacked)
    requires |f| == |Body(cfg, typ)|
  {
    if typ == TT_NONE then CLEAR
    else if typ == TT_ADMATCH then McontrolFrom(cfg, dmode, f, was)
    else if typ == TT_ICOUNT then IcountFrom(cfg, dmode, f)
    else if IsItrigger(typ) then ItriggerFrom(cfg, typ, dmode, f)
    else if typ == TT_MCONTROL6 then Mcontrol6From(cfg, dmode, f, was)
    else CLEAR.(typ := typ, dmode := dmode)
  }

  /** Hit fields may be absent; action is zero unless dmode is set, and never exceeds one. */
  function Finish(cfg: Config, t: Unpacked): (r: Unpacked) {
    t.(hit0 := t.hit0 && !cfg.noHit, hit1 := t.hit1 && !cfg.noHit,
       action := if !t.dmode || t.action > 1 then 0 else t.action)
  }

  /** Unpack a written value; mayDmode says whether dmode may be set (Debug mode or artifact access). */
  function Unpack(cfg: Config, mayDmode: bool, wasMatch: nat, v: nat): (t: Unpacked) {
    var typ := TypeOf(cfg, v);
    var f := Decode(Body(cfg, typ), 0, Low(v, cfg.Top()));
    Finish(cfg, FromValues(cfg, typ, DmodeOf(cfg, v) && mayDmode, f, wasMatch))
  }

  // ----- legal triggers -----

  /** Fields that a type does not have are zero, and the others are in range. */
  predicate LegalFields(cfg: Config, t: Unpacked) {
    if t.typ == TT_ADMATCH then McontrolLegal(cfg, t)
    else if t.typ == TT_ICOUNT then IcountLegal(cfg, t)
    else if IsItrigger(t.typ) then ItriggerLegal(cfg, t)
    else if t.typ == TT_MCONTROL6 then Mcontrol6Legal(cfg, t)
    else t == CLEAR.(typ := t.typ, dmode := t.dmode)
  }

  /** dmode, action and hit fields as Finish leaves them. */
  predicate LegalCommon(cfg: Config, t: Unpacked) {
    t.typ < 16 && (t.typ == TT_NONE ==> !t.dmode) && (!t.dmode ==> t.action == 0) && t.action <= 1 &&
    (cfg.noHit ==> !t.hit0 && !t.hit1)
  }

  predicate Legal(cfg: Config, t: Unpacked) { LegalCommon(cfg, t) && LegalFields(cfg, t) }

  lemma SmallPowers()
    ensures Pow2(1) == 2 && Pow2(2) == 4 && Pow2(3) == 8 && Pow2(4) == 16 && Pow2(6) == 64 && Pow2(14) == 16384
  {
  }

  lemma FromMcontrolLegal(cfg: Config, dmode: bool, f: seq<nat>, was: nat)
    requires Fits(Body(cfg, TT_ADMATCH), f) && was < 16
    ensures McontrolLegal(cfg, Finish(cfg, McontrolFrom(cfg, dmode, f, was)))
  {
    SmallPowers();
    assert f[0] < Pow2(3) && f[2] < Pow2(4) && f[5] < Pow2(2);
    if !cfg.rv32 { assert f[9] < Pow2(2); }
  }

  lemma FromMcontrol6Legal(cfg: Config, dmode: bool, f: seq<nat>, was: nat)
    requires Fits(Body(cfg, TT_MCONTROL6), f) && was < 16
    ensures Mcontrol6Legal(cfg, Finish(cfg, Mcontrol6From(cfg, dmode, f, was)))
  {
    SmallPowers();
    assert f[0] < Pow2(3) && f[2] < Pow2(4) && f[5] < Pow2(4);
  }

  lemma FromIcountLegal(cfg: Config, dmode: bool, f: seq<nat>)
    requires |f| >= 6
    ensures IcountLegal(cfg, Finish(cfg, IcountFrom(cfg, dmode, f)))
  {
  }

  lemma FromItriggerLegal(cfg: Config, typ: nat, dmode: bool, f: seq<nat>)
    requires |f| >= 7
    ensures ItriggerLegal(cfg, Finish(cfg, ItriggerFrom(cfg, typ, dmode, f)))
  {
  }

  lemma FinishedCommon(cfg: Config, t: Unpacked)
    requires t.typ < 16 && (t.typ == TT_NONE ==> !t.dmode)
    ensures LegalCommon(cfg, Finish(cfg, t))
  {
  }

  lemma FromValuesLegal(cfg: Config, typ: nat, dmode: bool, f: seq<nat>, was: nat)
    requires Fits(Body(cfg, typ), f) && was < 16 && typ < 16
    ensures Legal(cfg, Finish(cfg, FromValues(cfg, typ, dmode, f, was)))
  {
    FinishedCommon(cfg, FromValues(cfg, typ, dmode, f, was));
    if typ == TT_ADMATCH {
      FromMcontrolLegal(cfg, dmode, f, was);
    } else if typ == TT_ICOUNT {
      FromIcountLegal(cfg, dmode, f);
    } else if IsItrigger(typ) {
      FromItriggerLegal(cfg, typ, dmode, f);
    } else if typ == TT_MCONTROL6 {
      FromMcontrol6Legal(cfg, dmode, f, was);
    }
  }

  /** Whatever is written, the unpacked trigger is legal. */
  lemma UnpackIsLegal(cfg: Config, mayDmode: bool, was: nat, v: nat)
    requires was < 16
    ensures Legal(cfg, Unpack(cfg, mayDmode, was, v))
  {
    var l := Body(cfg, TypeOf(cfg, v));
    var f := Decode(l, 0, Low(v, cfg.Top()));
    assert Fits(l, f) by {
      forall i | 0 <= i < |f| ensures f[i] < Pow2(l[i]) { DecodeFits(l, 0, Low(v, cfg.Top()), i); }
    }
    FromValuesLegal(cfg, TypeOf(cfg, v), DmodeOf(cfg, v) && mayDmode, f, was);
  }

  // ----- round trip -----

  /** The match value is supported, or is the one the trigger already holds. */
  predicate MatchSettled(cfg: Config, t: Unpacked, was: nat) {
    t.typ == TT_ADMATCH || t.typ == TT_MCONTROL6 ==> t.matching in cfg.matches || t.matching == was
  }

  lemma ModeBitsBack(cfg: Config, ms: Modes, b: bool, virtual: bool)
    requires LegalModes(cfg, ms, virtual)
    ensures ModeBits(ms, b) < 16 && Bit2(ModeBits(ms, b)) == b
    ensures ComposeModes(cfg, ModeBits(ms, b), ms.vu, ms.vs) == ms
  {
  }

  lemma McontrolFits(cfg: Config, t: Unpacked)
    requires cfg.Valid() && McontrolLegal(cfg, t) && t.action <= 1
    ensures Fits(Body(cfg, TT_ADMATCH), McontrolValues(cfg, t))
  {
    SmallPowers();
    ModeBitsBack(cfg, t.modes, false, false);
  }

  lemma McontrolBack(cfg: Config, t: Unpacked, was: nat)
    requires McontrolLegal(cfg, t) && MatchSettled(cfg, t, was)
    ensures McontrolFrom(cfg, t.dmode, McontrolValues(cfg, t), was) == t
  {
    ModeBitsBack(cfg, t.modes, false, false);
  }

  lemma IcountFits(cfg: Config, t: Unpacked)
    requires IcountLegal(cfg, t) && t.action <= 1
    ensures Fits(Body(cfg, TT_ICOUNT), IcountValues(cfg, t))
  {
    SmallPowers();
    ModeBitsBack(cfg, t.modes, cfg.dbg014 && t.pending, true);
  }

  lemma IcountBack(cfg: Config, t: Unpacked)
    requires IcountLegal(cfg, t) && t.action <= 1
    ensures IcountFrom(cfg, t.dmode, IcountValues(cfg, t)) == t
  {
    ModeBitsBack(cfg, t.modes, cfg.dbg014 && t.pending, true);
  }

  lemma ItriggerFits(cfg: Config, t: Unpacked)
    requires IsItrigger(t.typ) && ItriggerLegal(cfg, t) && t.action <= 1
    ensures Fits(Body(cfg, t.typ), ItriggerValues(cfg, t))
  {
    SmallPowers();
    ModeBitsBack(cfg, t.modes, false, true);
  }

  lemma ItriggerBack(cfg: Config, t: Unpacked)
    requires IsItrigger(t.typ) && ItriggerLegal(cfg, t) && t.action <= 1
    ensures ItriggerFrom(cfg, t.typ, t.dmode, ItriggerValues(cfg, t)) == t
  {
    ModeBitsBack(cfg, t.modes, false, true);
  }

  lemma Mcontrol6NumbersFit(cfg: Config, t: Unpacked)
    requires t.priv < 8 && t.matching < 16 && t.action < 16 && t.size < 16
    ensures Fits(MCONTROL6_NUMBERS, Mcontrol6Numbers(cfg, t))
  {
    SmallPowers();
  }

  lemma Mcontrol6FlagsFit(cfg: Config, t: Unpacked)
    ensures Fits(MCONTROL6_FLAGS, Mcontrol6Flags(cfg, t))
  {
    SmallPowers();
  }

  lemma Mcontrol6Fits(cfg: Config, t: Unpacked)
    requires t.priv < 8 && t.matching < 16 && t.action < 16 && t.size < 16
    ensures Fits(Body(cfg, TT_MCONTROL6), Mcontrol6Values(cfg, t))
  {
    Mcontrol6NumbersFit(cfg, t);
    Mcontrol6FlagsFit(cfg, t);
    FitsConcat(MCONTROL6_NUMBERS, Mcontrol6Numbers(cfg, t), MCONTROL6_FLAGS, Mcontrol6Flags(cfg, t));
    if !cfg.rv32 {
      FitsConcat(MCONTROL6_32, Mcontrol6Numbers(cfg, t) + Mcontrol6Flags(cfg, t), [32], [0]);
    }
  }

  lemma Mcontrol6At(cfg: Config, t: Unpacked)
    ensures var f := Mcontrol6Values(cfg, t);
            |f| >= 13 && f[0] == t.priv && f[1] == ModeBits(t.modes, cfg.version1 && t.uncertainen) &&
            f[2] == t.matching && f[3] == N(t.chain) && f[4] == t.action && f[5] == t.size
  {
  }

  lemma ConcatAt(a: seq<nat>, b: seq<nat>, c: seq<nat>, k: nat)
    requires k < |b|
    ensures |a + b + c| > |a| + k && (a + b + c)[|a| + k] == b[k] && (a + b)[|a| + k] == b[k]
  {
  }

  lemma Mcontrol6FlagAt(cfg: Config, t: Unpacked, k: nat)
    requires k < 7
    ensures |Mcontrol6Values(cfg, t)| >= 13 && Mcontrol6Values(cfg, t)[6 + k] == Mcontrol6Flags(cfg, t)[k]
  {
    ConcatAt(Mcontrol6Numbers(cfg, t), Mcontrol6Flags(cfg, t), [0], k);
  }

  lemma Mcontrol6FlagsAt(cfg: Config, t: Unpacked)
    ensures var f := Mcontrol6Values(cfg, t);
            |f| >= 13 && f[6] == N(!cfg.version1 && t.timing) && f[7] == N(t.select) && f[8] == N(t.hit0) &&
            f[9] == N(t.modes.vu) && f[10] == N(t.modes.vs) && f[11] == N(t.hit1) && f[12] == N(t.uncertain)
  {
    Mcontrol6FlagAt(cfg, t, 0); Mcontrol6FlagAt(cfg, t, 1); Mcontrol6FlagAt(cfg, t, 2); Mcontrol6FlagAt(cfg, t, 3);
    Mcontrol6FlagAt(cfg, t, 4); Mcontrol6FlagAt(cfg, t, 5); Mcontrol6FlagAt(cfg, t, 6);
  }

  lemma Mcontrol6Back(cfg: Config, t: Unpacked, was: nat)
    requires Mcontrol6Legal(cfg, t) && MatchSettled(cfg, t, was)
    ensures Mcontrol6From(cfg, t.dmode, Mcontrol6Values(cfg, t), was) == t
  {
    Mcontrol6At(cfg, t);
    Mcontrol6FlagsAt(cfg, t);
    ModeBitsBack(cfg, t.modes, cfg.version1 && t.uncertainen, true);
  }

  lemma FinishLegal(cfg: Config, t: Unpacked)
    requires LegalCommon(cfg, t)
    ensures Finish(cfg, t) == t
  {
  }

  /** The values of a legal trigger fit their fields and give the trigger back. */
  lemma ValuesBack(cfg: Config, t: Unpacked, was: nat)
    requires cfg.Valid() && Legal(cfg, t) && MatchSettled(cfg, t, was)
    ensures Fits(Body(cfg, t.typ), Values(cfg, t))
    ensures FromValues(cfg, t.typ, t.dmode, Values(cfg, t), was) == t
  {
    if t.typ == TT_ADMATCH {
      McontrolFits(cfg, t);
      McontrolBack(cfg, t, was);
    } else if t.typ == TT_ICOUNT {
      IcountFits(cfg, t);
      IcountBack(cfg, t);
    } else if IsItrigger(t.typ) {
      ItriggerFits(cfg, t);
      ItriggerBack(cfg, t);
    } else if t.typ == TT_MCONTROL6 {
      Mcontrol6Fits(cfg, t);
      Mcontrol6Back(cfg, t, was);
    }
  }

  lemma HeadParts(dmode: bool, typ: nat)
    requires typ < 16
    ensures var h := N(dmode) + 2 * typ; h / 2 % 16 == typ && (h % 2 == 1 <==> dmode) && h < 32
  {
  }

  lemma PartsAt(n: nat, l: Layout, fs: seq<nat>, head: nat)
    requires Fits(l, fs) && Width(l, 0) == n && head < 32
    ensures var v := Join(Encode(l, 0, fs), n, head);
            Shr(v, n) == head && Decode(l, 0, Low(v, n)) == fs && v < Pow2(n + 5)
  {
    EncodeBound(l, 0, fs);
    SplitJoin(Encode(l, 0, fs), n, head);
    DecodeEncode(l, 0, fs);
    assert fs[0..] == fs;
    assert Pow2(5) == 32;
    JoinBound(Encode(l, 0, fs), n, head, 5);
  }

  /** A register made of a body, dmode and type splits into them again. */
  lemma RegisterParts(cfg: Config, l: Layout, fs: seq<nat>, dmode: bool, typ: nat)
    requires Fits(l, fs) && Width(l, 0) == cfg.Top() && typ < 16
    ensures var v := Join(Encode(l, 0, fs), cfg.Top(), N(dmode) + 2 * typ);
            TypeOf(cfg, v) == typ && DmodeOf(cfg, v) == dmode && Decode(l, 0, Low(v, cfg.Top())) == fs
            && v < Pow2(cfg.Top() + 5)
  {
    HeadParts(dmode, typ);
    PartsAt(cfg.Top(), l, fs, N(dmode) + 2 * typ);
  }

  /** Unpacking a value with known parts. */
  lemma UnpackParts(cfg: Config, mayDmode: bool, was: nat, t: Unpacked, v: nat)
    requires TypeOf(cfg, v) == t.typ && DmodeOf(cfg, v) == t.dmode && (t.dmode ==> mayDmode)
    requires Decode(Body(cfg, t.typ), 0, Low(v, cfg.Top())) == Values(cfg, t)
    requires FromValues(cfg, t.typ, t.dmode, Values(cfg, t), was) == t && Finish(cfg, t) == t
    ensures Unpack(cfg, mayDmode, was, v) == t
  {
  }

  /** A legal trigger survives being packed and unpacked again. */
  lemma UnpackPack(cfg: Config, mayDmode: bool, was: nat, t: Unpacked)
    requires cfg.Valid() && Legal(cfg, t) && MatchSettled(cfg, t, was) && (t.dmode ==> mayDmode)
    ensures Unpack(cfg, mayDmode, was, Pack(cfg, t)) == t && Pack(cfg, t) < Pow2(cfg.Xlen())
  {
    ValuesBack(cfg, t, was);
    BodyWidth(cfg, t.typ);
    RegisterParts(cfg, Body(cfg, t.typ), Values(cfg, t), t.dmode, t.typ);
    FinishLegal(cfg, t);
    UnpackParts(cfg, mayDmode, was, t, Pack(cfg, t));
  }

  lemma UnpackSettlesMatch(cfg: Config, mayDmode: bool, was: nat, v: nat)
    ensures MatchSettled(cfg, Unpack(cfg, mayDmode, was, v), was)
    ensures Unpack(cfg, mayDmode, was, v).dmode ==> mayDmode
  {
  }

  /** Legalisation is a projection: packing and unpacking a second time changes nothing. */
  lemma LegalisationIsProjection(cfg: Config, mayDmode: bool, was: nat, v: nat)
    requires cfg.Valid() && was < 16
    ensures var u := Unpack(cfg, mayDmode, was, v);
            Unpack(cfg, mayDmode, was, Pack(cfg, u)) == u
  {
    UnpackIsLegal(cfg, mayDmode, was, v);
    UnpackSettlesMatch(cfg, mayDmode, was, v);
    UnpackPack(cfg, mayDmode, was, Unpack(cfg, mayDmode, was, v));
  }

  // ----- packed triggers, field by field -----

  lemma PackDecodes(cfg: Config, t: Unpacked)
    requires cfg.Valid() && Legal(cfg, t)
    ensures Decode(Body(cfg, t.typ), 0, Low(Pack(cfg, t), cfg.Top())) == Values(cfg, t)
    ensures Width(Body(cfg, t.typ), 0) == cfg.Top()
  {
    ValuesBack(cfg, t, t.matching);
    BodyWidth(cfg, t.typ);
    HeadParts(t.dmode, t.typ);
    PartsAt(cfg.Top(), Body(cfg, t.typ), Values(cfg, t), N(t.dmode) + 2 * t.typ);
  }

  /** Every field of a packed trigger is at its position. */
  lemma PackField(cfg: Config, t: Unpacked, l: Layout, fs: seq<nat>, i: nat)
    requires cfg.Valid() && Legal(cfg, t) && l == Body(cfg, t.typ) && fs == Values(cfg, t) && i < |l| == |fs|
    ensures FieldIs(Pack(cfg, t), Start(l, i), l[i], fs[i])
  {
    PackDecodes(cfg, t);
    FieldBelow(l, Pack(cfg, t), cfg.Top(), i);
  }

  /** The first n fields of a layout start at the given positions. */
  predicate StartsAt(l: Layout, ps: seq<nat>) {
    |ps| <= |l| && forall i :: 0 <= i < |ps| ==> Start(l, i) == ps[i]
  }

  /** Positions that add up. */
  predicate AddsUp(l: Layout, ps: seq<nat>) {
    |ps| <= |l| && (ps != [] ==> ps[0] == 0) && forall i :: 0 < i < |ps| ==> ps[i] == ps[i - 1] + l[i - 1]
  }

  lemma {:induction false} AddingUpStarts(l: Layout, ps: seq<nat>, i: nat)
    requires AddsUp(l, ps) && i < |ps|
    ensures Start(l, i) == ps[i]
  {
    if i > 0 { AddingUpStarts(l, ps, i - 1); }
  }

  lemma FieldAtPosition(cfg: Config, t: Unpacked, ps: seq<nat>, i: nat)
    requires cfg.Valid() && Legal(cfg, t) && AddsUp(Body(cfg, t.typ), ps) && i < |ps|
    ensures FieldIs(Pack(cfg, t), ps[i], Body(cfg, t.typ)[i], Values(cfg, t)[i])
  {
    PackField(cfg, t, Body(cfg, t.typ), Values(cfg, t), i);
    AddingUpStarts(Body(cfg, t.typ), ps, i);
  }

  /** All fields of a packed trigger, at positions that add up. */
  lemma FieldsAtPositions(cfg: Config, t: Unpacked, ps: seq<nat>)
    requires cfg.Valid() && Legal(cfg, t) && AddsUp(Body(cfg, t.typ), ps)
    ensures forall i :: 0 <= i < |ps| ==> FieldIs(Pack(cfg, t), ps[i], Body(cfg, t.typ)[i], Values(cfg, t)[i])
  {
    forall i | 0 <= i < |ps| ensures FieldIs(Pack(cfg, t), ps[i], Body(cfg, t.typ)[i], Values(cfg, t)[i]) {
      FieldAtPosition(cfg, t, ps, i);
    }
  }

  const MCONTROL_POSITIONS_32: seq<nat> := [0, 3, 7, 11, 12, 16, 18, 19, 20, 21]
  const MCONTROL_POSITIONS_64: seq<nat> := [0, 3, 7, 11, 12, 16, 18, 19, 20, 21, 23, 53]

  lemma McontrolAddsUp(cfg: Config)
    ensures AddsUp(Body(cfg, TT_ADMATCH), if cfg.rv32 then MCONTROL_POSITIONS_32 else MCONTROL_POSITIONS_64)
  {
  }

  /** The fields of a type 2 trigger, with the read-only maskmax on top. */
  lemma McontrolFields(cfg: Config, t: Unpacked)
    requires cfg.Valid() && Legal(cfg, t) && t.typ == TT_ADMATCH
    ensures var v := Pack(cfg, t);
            FieldIs(v, 0, 3, t.priv) && FieldIs(v, 3, 4, ModeBits(t.modes, false)) && FieldIs(v, 7, 4, t.matching) &&
            FieldIs(v, 11, 1, N(t.chain)) && FieldIs(v, 12, 4, t.action) && FieldIs(v, 16, 2, t.size % 4) &&
            FieldIs(v, 18, 1, N(t.timing)) && FieldIs(v, 19, 1, N(t.select)) && FieldIs(v, 20, 1, N(t.hit0)) &&
            FieldIs(v, if cfg.rv32 then 21 else 53, 6, cfg.maskmax) && (!cfg.rv32 ==> FieldIs(v, 21, 2, t.size / 4))
  {
    var ps := if cfg.rv32 then MCONTROL_POSITIONS_32 else MCONTROL_POSITIONS_64;
    McontrolAddsUp(cfg);
    FieldsAtPositions(cfg, t, ps);
    assert ps[0] == 0 && ps[1] == 3 && ps[2] == 7 && ps[3] == 11 && ps[4] == 12 && ps[5] == 16 && ps[6] == 18;
    assert ps[7] == 19 && ps[8] == 20 && ps[9] == 21 && (!cfg.rv32 ==> ps[11] == 53);
  }

  const ICOUNT_POSITIONS: seq<nat> := [0, 6, 10, 24, 25, 26]

  lemma IcountAddsUp(cfg: Config)
    ensures AddsUp(Body(cfg, TT_ICOUNT), ICOUNT_POSITIONS)
  {
  }

  /** The fields of an instruction count trigger, whose count is one. */
  lemma IcountFields(cfg: Config, t: Unpacked)
    requires cfg.Valid() && Legal(cfg, t) && t.typ == TT_ICOUNT
    ensures var v := Pack(cfg, t);
            FieldIs(v, 0, 6, t.action) && FieldIs(v, 6, 4, ModeBits(t.modes, cfg.dbg014 && t.pending)) &&
            FieldIs(v, 10, 14, 1) && FieldIs(v, 24, 1, N(t.hit0)) && FieldIs(v, 25, 1, N(t.modes.vu)) &&
            FieldIs(v, 26, 1, N(t.modes.vs))
  {
    IcountAddsUp(cfg);
    FieldsAtPositions(cfg, t, ICOUNT_POSITIONS);
    var ps := ICOUNT_POSITIONS;
    assert ps[0] == 0 && ps[1] == 6 && ps[2] == 10 && ps[3] == 24 && ps[4] == 25 && ps[5] == 26;
  }

  const ITRIGGER_POSITIONS_32: seq<nat> := [0, 6, 10, 11, 12, 13, 26]
  const ITRIGGER_POSITIONS_64: seq<nat> := [0, 6, 10, 11, 12, 13, 58]

  lemma ItriggerAddsUp(cfg: Config, typ: nat)
    requires IsItrigger(typ)
    ensures AddsUp(Body(cfg, typ), if cfg.rv32 then ITRIGGER_POSITIONS_32 else ITRIGGER_POSITIONS_64)
  {
  }

  /** The fields of an interrupt or exception trigger. */
  lemma ItriggerFields(cfg: Config, t: Unpacked)
    requires cfg.Valid() && Legal(cfg, t) && IsItrigger(t.typ)
    ensures var v := Pack(cfg, t);
            FieldIs(v, 0, 6, t.action) && FieldIs(v, 6, 4, ModeBits(t.modes, false)) && FieldIs(v, 10, 1, N(t.nmi)) &&
            FieldIs(v, 11, 1, N(t.modes.vu)) && FieldIs(v, 12, 1, N(t.modes.vs)) &&
            FieldIs(v, if cfg.rv32 then 26 else 58, 1, N(t.hit0))
  {
    var ps := if cfg.rv32 then ITRIGGER_POSITIONS_32 else ITRIGGER_POSITIONS_64;
    ItriggerAddsUp(cfg, t.typ);
    FieldsAtPositions(cfg, t, ps);
    assert ps[0] == 0 && ps[1] == 6 && ps[2] == 10 && ps[3] == 11 && ps[4] == 12;
    assert ps[6] == if cfg.rv32 then 26 else 58;
  }

  const MCONTROL6_POSITIONS: seq<nat> := [0, 3, 7, 11, 12, 16, 20, 21, 22, 23, 24, 25, 26]

  lemma Mcontrol6AddsUp(cfg: Config)
    ensures AddsUp(Body(cfg, TT_MCONTROL6), MCONTROL6_POSITIONS)
  {
    assert |Body(cfg, TT_MCONTROL6)| >= 13;
  }

  lemma Mcontrol6Widths(cfg: Config)
    ensures var l := Body(cfg, TT_MCONTROL6);
            |l| >= 13 && l[0] == 3 && l[1] == 4 && l[2] == 4 && l[3] == 1 && l[4] == 4 && l[5] == 4 &&
            forall i :: 6 <= i < 13 ==> l[i] == 1
  {
  }

  /** The fields of a type 6 trigger. */
  lemma Mcontrol6Fields(cfg: Config, t: Unpacked)
    requires cfg.Valid() && Legal(cfg, t) && t.typ == TT_MCONTROL6
    ensures var v := Pack(cfg, t);
            FieldIs(v, 0, 3, t.priv) && FieldIs(v, 3, 4, ModeBits(t.modes, cfg.version1 && t.uncertainen)) &&
            FieldIs(v, 7, 4, t.matching) && FieldIs(v, 11, 1, N(t.chain)) && FieldIs(v, 12, 4, t.action) &&
            FieldIs(v, 16, 4, t.size)
    ensures var v := Pack(cfg, t);
            FieldIs(v, 20, 1, N(!cfg.version1 && t.timing)) && FieldIs(v, 21, 1, N(t.select)) &&
            FieldIs(v, 22, 1, N(t.hit0)) && FieldIs(v, 23, 1, N(t.modes.vu)) && FieldIs(v, 24, 1, N(t.modes.vs)) &&
            FieldIs(v, 25, 1, N(t.hit1)) && FieldIs(v, 26, 1, N(t.uncertain))
  {
    Mcontrol6AddsUp(cfg);
    Mcontrol6Widths(cfg);
    FieldsAtPositions(cfg, t, MCONTROL6_POSITIONS);
    Mcontrol6At(cfg, t);
    Mcontrol6FlagsAt(cfg, t);
    var ps := MCONTROL6_POSITIONS;
    assert ps[0] == 0 && ps[1] == 3 && ps[2] == 7 && ps[3] == 11 && ps[4] == 12 && ps[5] == 16 && ps[6] == 20;
    assert ps[7] == 21 && ps[8] == 22 && ps[9] == 23 && ps[10] == 24 && ps[11] == 25 && ps[12] == 26;
  }

  /** The bits of the modes field. */
  lemma ModesField(ms: Modes, bit2: bool)
    ensures var n := ModeBits(ms, bit2);
            Bit(n, 0) == ms.u && Bit(n, 1) == ms.s && Bit(n, 2) == bit2 && Bit(n, 3) == ms.m
  {
    var n := ModeBits(ms, bit2);
    assert Bit(n, 1) == Bit(n / 2, 0) && Bit(n, 2) == Bit(n / 2, 1) && Bit(n / 2, 1) == Bit(n / 2 / 2, 0);
    assert Bit(n, 3) == Bit(n / 2, 2) && Bit(n / 2, 2) == Bit(n / 2 / 2, 1);
    assert Bit(n / 2 / 2, 1) == Bit(n / 2 / 2 / 2, 0);
  }

  /** The type and dmode of a packed trigger, above the other fields. */
  lemma HeadField(cfg: Config, t: Unpacked)
    requires cfg.Valid() && Legal(cfg, t)
    ensures Shr(Pack(cfg, t), if cfg.rv32 then 27 else 59) == N(t.dmode) + 2 * t.typ
  {
    ValuesBack(cfg, t, t.matching);
    BodyWidth(cfg, t.typ);
    HeadParts(t.dmode, t.typ);
    PartsAt(cfg.Top(), Body(cfg, t.typ), Values(cfg, t), N(t.dmode) + 2 * t.typ);
  }

  // ----- what each field of a written value becomes -----

  /** The field of a given width at a given position. */
  function At(v: nat, position: nat, width: nat): (n: nat) { Low(Shr(v, position), width) }

  lemma WrittenField(cfg: Config, typ: nat, v: nat, ps: seq<nat>, i: nat)
    requires AddsUp(Body(cfg, typ), ps) && i < |ps|
    ensures Decode(Body(cfg, typ), 0, Low(v, cfg.Top()))[i] == At(v, ps[i], Body(cfg, typ)[i])
  {
    BodyWidth(cfg, typ);
    FieldBelow(Body(cfg, typ), v, cfg.Top(), i);
    AddingUpStarts(Body(cfg, typ), ps, i);
  }

  /** The modes of a written value: those whose bit is set and that are implemented. */
  predicate ModesAre(cfg: Config, ms: Modes, n: nat, vu: bool, vs: bool) {
    (ms.u <==> n % 2 == 1 && cfg.isaU) && (ms.s <==> n / 2 % 2 == 1 && cfg.isaS) &&
    (ms.m <==> n / 8 == 1 && cfg.isaM) &&
    (ms.vu <==> vu && cfg.isaH) && (ms.vs <==> vs && cfg.isaH)
  }

  /** Action one needs dmode, and there are no others. */
  predicate ActionIs(action: nat, written: nat, dmode: bool) {
    action == if written == 1 && dmode then 1 else 0
  }

  lemma SmallField(v: nat, position: nat)
    ensures At(v, position, 4) < 16
  {
    LowBound(Shr(v, position), 4);
    assert Pow2(4) == 16;
  }

  lemma ModesOf(cfg: Config, n: nat, vu: bool, vs: bool)
    requires n < 16
    ensures ModesAre(cfg, ComposeModes(cfg, n, vu, vs), n, vu, vs)
  {
  }

  lemma ItriggerWritten(cfg: Config, typ: nat, v: nat)
    requires IsItrigger(typ)
    ensures var f := Decode(Body(cfg, typ), 0, Low(v, cfg.Top()));
            |f| >= 7 && f[0] == At(v, 0, 6) && f[1] == At(v, 6, 4) && f[2] == At(v, 10, 1) && f[3] == At(v, 11, 1) &&
            f[4] == At(v, 12, 1) && f[6] == At(v, if cfg.rv32 then 26 else 58, 1)
  {
    var ps := if cfg.rv32 then ITRIGGER_POSITIONS_32 else ITRIGGER_POSITIONS_64;
    ItriggerAddsUp(cfg, typ);
    WrittenField(cfg, typ, v, ps, 0);
    WrittenField(cfg, typ, v, ps, 1);
    WrittenField(cfg, typ, v, ps, 2);
    WrittenField(cfg, typ, v, ps, 3);
    WrittenField(cfg, typ, v, ps, 4);
    WrittenField(cfg, typ, v, ps, 6);
  }

  /** Interrupt and exception triggers: nmi is in the interrupt view from version 1.0, in the exception view before. */
  lemma UnpackItrigger(cfg: Config, may: bool, was: nat, v: nat)
    requires IsItrigger(TypeOf(cfg, v))
    ensures var t, d := Unpack(cfg, may, was, v), DmodeOf(cfg, v) && may;
            t.dmode == d && ModesAre(cfg, t.modes, At(v, 6, 4), At(v, 11, 1) == 1, At(v, 12, 1) == 1) &&
            ActionIs(t.action, At(v, 0, 6) % 16, d) &&
            t.nmi == (At(v, 10, 1) == 1 && TypeOf(cfg, v) == (if cfg.dbg10 then 4 else 5)) &&
            t.hit0 == (At(v, if cfg.rv32 then 26 else 58, 1) == 1 && !cfg.noHit)
  {
    ItriggerWritten(cfg, TypeOf(cfg, v), v);
    SmallField(v, 6);
    ModesOf(cfg, At(v, 6, 4), At(v, 11, 1) == 1, At(v, 12, 1) == 1);
  }

  /** Instruction count triggers: the count is one, and pending exists from version 0.14.0. */
  lemma UnpackIcount(cfg: Config, may: bool, was: nat, v: nat)
    requires TypeOf(cfg, v) == TT_ICOUNT
    ensures var t, d := Unpack(cfg, may, was, v), DmodeOf(cfg, v) && may;
            t.dmode == d && ModesAre(cfg, t.modes, At(v, 6, 4), At(v, 25, 1) == 1, At(v, 26, 1) == 1) &&
            ActionIs(t.action, At(v, 0, 6) % 16, d) && t.count == 1 &&
            t.pending == (At(v, 6, 4) / 4 % 2 == 1 && cfg.dbg014) && t.hit0 == (At(v, 24, 1) == 1 && !cfg.noHit)
  {
    var ps := ICOUNT_POSITIONS;
    IcountAddsUp(cfg);
    WrittenField(cfg, TT_ICOUNT, v, ps, 0);
    WrittenField(cfg, TT_ICOUNT, v, ps, 1);
    WrittenField(cfg, TT_ICOUNT, v, ps, 3);
    WrittenField(cfg, TT_ICOUNT, v, ps, 4);
    WrittenField(cfg, TT_ICOUNT, v, ps, 5);
    SmallField(v, 6);
    ModesOf(cfg, At(v, 6, 4), At(v, 25, 1) == 1, At(v, 26, 1) == 1);
  }

  lemma McontrolWritten(cfg: Config, v: nat)
    ensures var f := Decode(Body(cfg, TT_ADMATCH), 0, Low(v, cfg.Top()));
            |f| >= 10 && f[0] == At(v, 0, 3) && f[1] == At(v, 3, 4) && f[2] == At(v, 7, 4) && f[3] == At(v, 11, 1) &&
            f[4] == At(v, 12, 4) && f[5] == At(v, 16, 2) && f[6] == At(v, 18, 1) && f[7] == At(v, 19, 1) &&
            f[8] == At(v, 20, 1) && (!cfg.rv32 ==> f[9] == At(v, 21, 2))
  {
    var ps := if cfg.rv32 then MCONTROL_POSITIONS_32 else MCONTROL_POSITIONS_64;
    McontrolAddsUp(cfg);
    forall i | 0 <= i < 10
      ensures Decode(Body(cfg, TT_ADMATCH), 0, Low(v, cfg.Top()))[i] == At(v, ps[i], Body(cfg, TT_ADMATCH)[i])
    {
      WrittenField(cfg, TT_ADMATCH, v, ps, i);
    }
  }

  /** Type 2 address match triggers; an unsupported match value reverts to the one held. */
  lemma UnpackMcontrol(cfg: Config, may: bool, was: nat, v: nat)
    requires TypeOf(cfg, v) == TT_ADMATCH
    ensures var t, d, w := Unpack(cfg, may, was, v), DmodeOf(cfg, v) && may, At(v, 7, 4);
            t.dmode == d && t.priv == At(v, 0, 3) && ModesAre(cfg, t.modes, At(v, 3, 4), false, false) &&
            t.matching == (if w in cfg.matches then w else was) && ActionIs(t.action, At(v, 12, 4), d) &&
            t.size == At(v, 16, 2) + (if cfg.rv32 then 0 else 4 * At(v, 21, 2)) && t.chain == (At(v, 11, 1) == 1) &&
            t.timing == (At(v, 18, 1) == 1) && t.select == (At(v, 19, 1) == 1) &&
            t.hit0 == (At(v, 20, 1) == 1 && !cfg.noHit)
  {
    McontrolWritten(cfg, v);
    SmallField(v, 3);
    ModesOf(cfg, At(v, 3, 4), false, false);
  }

  lemma Mcontrol6Written(cfg: Config, v: nat)
    ensures var f := Decode(Body(cfg, TT_MCONTROL6), 0, Low(v, cfg.Top()));
            |f| >= 13 && f[0] == At(v, 0, 3) && f[1] == At(v, 3, 4) && f[2] == At(v, 7, 4) && f[3] == At(v, 11, 1) &&
            f[4] == At(v, 12, 4) && f[5] == At(v, 16, 4) && forall i :: 6 <= i < 13 ==> f[i] == At(v, i + 14, 1)
  {
    var ps := MCONTROL6_POSITIONS;
    Mcontrol6AddsUp(cfg);
    Mcontrol6Widths(cfg);
    forall i | 0 <= i < 13
      ensures Decode(Body(cfg, TT_MCONTROL6), 0, Low(v, cfg.Top()))[i] == At(v, ps[i], Body(cfg, TT_MCONTROL6)[i])
    {
      WrittenField(cfg, TT_MCONTROL6, v, ps, i);
    }
    assert forall i :: 6 <= i < 13 ==> ps[i] == i + 14;
  }

  /** Type 6 address match triggers; timing gives way to hit1, uncertain and uncertainen from tinfo version 1. */
  lemma UnpackMcontrol6(cfg: Config, may: bool, was: nat, v: nat)
    requires TypeOf(cfg, v) == TT_MCONTROL6
    ensures var t, d, w := Unpack(cfg, may, was, v), DmodeOf(cfg, v) && may, At(v, 7, 4);
            t.dmode == d && t.priv == At(v, 0, 3) &&
            ModesAre(cfg, t.modes, At(v, 3, 4), At(v, 23, 1) == 1, At(v, 24, 1) == 1) &&
            t.matching == (if w in cfg.matches then w else was) && ActionIs(t.action, At(v, 12, 4), d) &&
            t.size == (if cfg.version1 then At(v, 16, 4) % 8 else At(v, 16, 4)) && t.chain == (At(v, 11, 1) == 1)
    ensures var t := Unpack(cfg, may, was, v);
            t.timing == (At(v, 20, 1) == 1 && !cfg.version1) && t.select == (At(v, 21, 1) == 1) &&
            t.hit0 == (At(v, 22, 1) == 1 && !cfg.noHit) &&
            t.hit1 == (At(v, 25, 1) == 1 && cfg.version1 && !cfg.noHit) &&
            t.uncertain == (At(v, 26, 1) == 1 && cfg.version1) &&
            t.uncertainen == (At(v, 3, 4) / 4 % 2 == 1 && cfg.version1)
  {
    Mcontrol6Written(cfg, v);
    SmallField(v, 3);
    ModesOf(cfg, At(v, 3, 4), At(v, 23, 1) == 1, At(v, 24, 1) == 1);
  }

  /** Triggers of other types have type and dmode alone; those of type zero have nothing. */
  lemma UnpackOther(cfg: Config, may: bool, was: nat, v: nat)
    requires var typ := TypeOf(cfg, v); typ != 2 && typ != 3 && typ != 4 && typ != 5 && typ != 6
    ensures Unpack(cfg, may, was, v) ==
            CLEAR.(typ := TypeOf(cfg, v), dmode := TypeOf(cfg, v) != 0 && DmodeOf(cfg, v) && may)
  {
  }
}
