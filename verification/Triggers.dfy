/** The trigger registers tselect, tdata1, tdata2 and tdata3. */
module Triggers {
  import opened Bits
  import opened BitFields
  import opened Tdata1

  // ----- tdata3 -----

  /** Implemented value bits, and the selects that are legal. */
  datatype Config3 = Config3(
    mvalueBits: nat, svalueBits: nat,   // svalueBits is zero without Supervisor mode
    hypervisor: bool, scontext: bool, noSselect2: bool,
    bytemask: bool)                     // sbytemask implemented: debug version 1.0.0 or later

  datatype Unpacked3 = Unpacked3(sselect: nat, svalue: nat, sbytemask: nat, mhselect: nat, mhvalue: nat)

  const TDATA3_32: Layout := [2, 16, 2, 3, 3, 6]
  const TDATA3_64: Layout := [2, 34, 5, 7, 3, 13]

  function Layout3(rv32: bool): (l: Layout) { if rv32 then TDATA3_32 else TDATA3_64 }

  function Pack3(rv32: bool, t: Unpacked3): (v: nat) {
    Encode(Layout3(rv32), 0, Values3(t))
  }

  function Legal3(c: Config3, t: Unpacked3): (r: Unpacked3) {
    Unpacked3(
      if c.svalueBits == 0 || (t.sselect == 1 && !c.scontext) || (t.sselect == 2 && c.noSselect2) || t.sselect == 3
      then 0 else t.sselect,
      Low(t.svalue, c.svalueBits),
      if c.svalueBits == 0 || !c.bytemask then 0 else t.sbytemask,
      if c.mvalueBits == 0 then 0
      else if !c.hypervisor then t.mhselect / 4 % 2 * 4
      else if t.mhselect % 4 == 3 then 0 else t.mhselect,
      Low(t.mhvalue, c.mvalueBits))
  }

  function Unpack3(rv32: bool, c: Config3, v: nat): (t: Unpacked3) {
    var f := Decode(Layout3(rv32), 0, v);
    Legal3(c, Unpacked3(f[0], f[1], f[2], f[4], f[5]))
  }

  lemma {:induction false} LowLow(v: nat, n: nat)
    ensures Low(Low(v, n), n) == Low(v, n) && Low(v, n) <= v
  {
    if n > 0 { LowLow(v / 2, n - 1); }
  }

  lemma Legal3Twice(c: Config3, t: Unpacked3)
    ensures Legal3(c, Legal3(c, t)) == Legal3(c, t)
  {
    LowLow(t.svalue, c.svalueBits);
    LowLow(t.mhvalue, c.mvalueBits);
  }

  /** Legalising only ever clears bits, so the values still fit their fields. */
  lemma Legal3Smaller(c: Config3, t: Unpacked3)
    ensures var r := Legal3(c, t);
            r.sselect <= t.sselect && r.svalue <= t.svalue && r.sbytemask <= t.sbytemask && r.mhselect <= t.mhselect &&
            r.mhvalue <= t.mhvalue
  {
    LowLow(t.svalue, c.svalueBits);
    LowLow(t.mhvalue, c.mvalueBits);
  }

  function Values3(t: Unpacked3): (fs: seq<nat>) { [t.sselect, t.svalue, t.sbytemask, 0, t.mhselect, t.mhvalue] }

  lemma FitsBelow(l: Layout, fs: seq<nat>, gs: seq<nat>)
    requires Fits(l, fs) && |gs| == |fs| && forall i :: 0 <= i < |gs| ==> gs[i] <= fs[i]
    ensures Fits(l, gs)
  {
  }

  lemma Fits3(rv32: bool, c: Config3, v: nat)
    ensures Fits(Layout3(rv32), Values3(Unpack3(rv32, c, v)))
  {
    var l := Layout3(rv32);
    var f := Decode(l, 0, v);
    assert Fits(l, f) by {
      forall i | 0 <= i < |f| ensures f[i] < Pow2(l[i]) { DecodeFits(l, 0, v, i); }
    }
    Legal3Smaller(c, Unpacked3(f[0], f[1], f[2], f[4], f[5]));
    FitsBelow(l, f, Values3(Unpack3(rv32, c, v)));
  }

  /** tdata3 legalisation is a projection too. */
  lemma Tdata3IsProjection(rv32: bool, c: Config3, v: nat)
    ensures var u := Unpack3(rv32, c, v); Unpack3(rv32, c, Pack3(rv32, u)) == u
  {
    var l, u := Layout3(rv32), Unpack3(rv32, c, v);
    Fits3(rv32, c, v);
    DecodeEncode(l, 0, Values3(u));
    assert Values3(u)[0..] == Values3(u);
    var f := Decode(l, 0, v);
    Legal3Twice(c, Unpacked3(f[0], f[1], f[2], f[4], f[5]));
  }

  lemma Starts3(rv32: bool)
    ensures var l := Layout3(rv32);
            Start(l, 0) == 0 && Start(l, 1) == 2 && Start(l, 2) == (if rv32 then 18 else 36) &&
            Start(l, 4) == (if rv32 then 23 else 48) && Start(l, 5) == if rv32 then 26 else 51
  {
    var l := Layout3(rv32);
    StartNext(l, 0); StartNext(l, 1); StartNext(l, 2); StartNext(l, 3); StartNext(l, 4);
  }

  /** A field of a written tdata3 value. */
  function Field3(rv32: bool, v: nat, position32: nat, width32: nat, position64: nat, width64: nat): (n: nat) {
    if rv32 then Low(Shr(v, position32), width32) else Low(Shr(v, position64), width64)
  }

  lemma Fields3(rv32: bool, v: nat)
    ensures var f := Decode(Layout3(rv32), 0, v);
            f[0] == Field3(rv32, v, 0, 2, 0, 2) && f[1] == Field3(rv32, v, 2, 16, 2, 34) &&
            f[2] == Field3(rv32, v, 18, 2, 36, 5) && f[4] == Field3(rv32, v, 23, 3, 48, 3) &&
            f[5] == Field3(rv32, v, 26, 6, 51, 13)
  {
    var l := Layout3(rv32);
    Starts3(rv32);
    DecodeAt(l, 0, v, 0);
    DecodeAt(l, 0, v, 1);
    DecodeAt(l, 0, v, 2);
    DecodeAt(l, 0, v, 4);
    DecodeAt(l, 0, v, 5);
  }

  lemma Selects3(rv32: bool, v: nat)
    ensures var f := Decode(Layout3(rv32), 0, v); f[0] < 4 && f[4] < 8
  {
    DecodeFits(Layout3(rv32), 0, v, 0);
    DecodeFits(Layout3(rv32), 0, v, 4);
    assert Pow2(2) == 4 && Pow2(3) == 8;
  }

  lemma Legal3Rules(c: Config3, t: Unpacked3)
    requires t.sselect < 4 && t.mhselect < 8
    ensures var s, m, r := t.sselect, t.mhselect, Legal3(c, t);
            r.sselect == (if c.svalueBits > 0 && ((s == 1 && c.scontext) || (s == 2 && !c.noSselect2)) then s else 0) &&
            r.sbytemask == (if c.svalueBits > 0 && c.bytemask then t.sbytemask else 0) &&
            r.mhselect == (if c.mvalueBits == 0 then 0
                           else if c.hypervisor then (if m == 3 || m == 7 then 0 else m)
                           else if m >= 4 then 4 else 0)
  {
  }

  /** What each field of tdata3 becomes when v is written. */
  lemma Tdata3Rules(rv32: bool, c: Config3, v: nat)
    ensures var t := Unpack3(rv32, c, v);
            var s, m := Field3(rv32, v, 0, 2, 0, 2), Field3(rv32, v, 23, 3, 48, 3);
            t.sselect == (if c.svalueBits > 0 && ((s == 1 && c.scontext) || (s == 2 && !c.noSselect2)) then s else 0) &&
            t.svalue == Low(Field3(rv32, v, 2, 16, 2, 34), c.svalueBits) &&
            t.sbytemask == (if c.svalueBits > 0 && c.bytemask then Field3(rv32, v, 18, 2, 36, 5) else 0) &&
            t.mhselect == (if c.mvalueBits == 0 then 0
                           else if c.hypervisor then (if m == 3 || m == 7 then 0 else m)
                           else if m >= 4 then 4 else 0) &&
            t.mhvalue == Low(Field3(rv32, v, 26, 6, 51, 13), c.mvalueBits)
  {
    var f := Decode(Layout3(rv32), 0, v);
    Fields3(rv32, v);
    Selects3(rv32, v);
    Legal3Rules(c, Unpacked3(f[0], f[1], f[2], f[4], f[5]));
  }

  // ----- the trigger unit -----

  datatype Trigger = Trigger(tdata1: Unpacked, tdata2: nat, tdata3: Unpacked3)

  /** tselect and the implemented triggers. */
  datatype Unit = Unit(tselect: nat, triggers: seq<Trigger>) {
    predicate Valid() {
      tselect < |triggers| && forall k :: 0 <= k < |triggers| ==> triggers[k].tdata1.matching < 16
    }
  }

  datatype Setup = Setup(c1: Config, c3: Config3, interruptMask: nat, exceptionMask: nat)

  /** Who makes an access: program code, Debug mode, or the simulator itself. */
  datatype Access = Access(artifact: bool, debug: bool) {
    predicate Privileged() { artifact || debug }
  }

  datatype Write = Tselect(v: nat) | Tdata1(v: nat) | Tdata2(v: nat) | Tdata3(v: nat)

  predicate MayWriteTrigger(a: Access, t: Trigger) { a.Privileged() || !t.tdata1.dmode }

  /** A trigger may not become dmode=1 while the one chained to it is dmode=0. */
  predicate MayWriteChain(a: Access, dmode: bool, u: Unit)
    requires u.Valid()
  {
    a.artifact || !dmode || u.tselect == 0 ||
    u.triggers[u.tselect - 1].tdata1.dmode || !u.triggers[u.tselect - 1].tdata1.chain
  }

  /** tdata1 of the selected trigger after a write. */
  function NewTdata1(s: Setup, a: Access, u: Unit, v: nat): (r: Unpacked)
    requires u.Valid()
  {
    var t := u.triggers[u.tselect].tdata1;
    var before := Pack(s.c1, t);
    var w := Blend(v, before, s.c1.mask, s.c1.Xlen());
    var n := Unpack(s.c1, a.Privileged(), t.matching, w);
    if Accepts(s, a, u, w) && Pack(s.c1, n) != before then n else t
  }

  /** The masked value w has a type that tinfo advertises, and does not break a chain. */
  predicate Accepts(s: Setup, a: Access, u: Unit, w: nat)
    requires u.Valid()
  {
    TypeOf(s.c1, w) in s.c1.types &&
    MayWriteChain(a, Unpack(s.c1, a.Privileged(), u.triggers[u.tselect].tdata1.matching, w).dmode, u)
  }

  function NewTdata2(s: Setup, a: Access, t: Trigger, v: nat): (r: nat) {
    var n := s.c1.Xlen();
    var ones := Pow2(n) - 1;
    if a.artifact then Low(v, n)
    else if t.tdata1.typ == TT_MCONTROL6 && v == ones then Low(Join(0, s.c1.maskmax, ones), n)
    else if t.tdata1.typ == TT_INTERRUPT then Blend(v, t.tdata2, s.interruptMask, n)
    else if t.tdata1.typ == TT_EXCEPTION then Blend(v, t.tdata2, s.exceptionMask, n)
    else Low(v, n)
  }

  function Apply(s: Setup, a: Access, u: Unit, w: Write): (r: Unit)
    requires u.Valid()
  {
    var k := u.tselect;
    var t := u.triggers[k];
    if w.Tselect? then (if w.v < |u.triggers| then u.(tselect := w.v) else u)
    else if !MayWriteTrigger(a, t) then u
    else match w
      case Tdata1(v) => u.(triggers := u.triggers[k := t.(tdata1 := NewTdata1(s, a, u, v))])
      case Tdata2(v) => u.(triggers := u.triggers[k := t.(tdata2 := NewTdata2(s, a, t, v))])
      case Tdata3(v) => u.(triggers := u.triggers[k := t.(tdata3 := Unpack3(s.c1.rv32, s.c3, v))])
  }

  // ----- what every write keeps -----

  /** Type advertised by tinfo; action zero unless dmode, and never above one. */
  predicate Sound(s: Setup, t: Unpacked) {
    t.typ in s.c1.types && (!t.dmode ==> t.action == 0) && t.action <= 1 && t.matching < 16
  }

  ghost predicate AllSound(s: Setup, u: Unit) {
    u.Valid() && forall k :: 0 <= k < |u.triggers| ==> Sound(s, u.triggers[k].tdata1)
  }

  lemma NewTdata1Sound(s: Setup, a: Access, u: Unit, v: nat)
    requires u.Valid() && Sound(s, u.triggers[u.tselect].tdata1)
    ensures Sound(s, NewTdata1(s, a, u, v))
    ensures !a.Privileged() && !u.triggers[u.tselect].tdata1.dmode ==> !NewTdata1(s, a, u, v).dmode
  {
    var t := u.triggers[u.tselect].tdata1;
    var w := Blend(v, Pack(s.c1, t), s.c1.mask, s.c1.Xlen());
    UnpackIsLegal(s.c1, a.Privileged(), t.matching, w);
    UnpackSettlesMatch(s.c1, a.Privileged(), t.matching, w);
    UnpackKeepsType(s.c1, a.Privileged(), t.matching, w);
  }

  lemma UnpackKeepsType(c: Config, may: bool, was: nat, w: nat)
    requires was < 16
    ensures Unpack(c, may, was, w).typ == TypeOf(c, w) && Unpack(c, may, was, w).matching < 16
  {
    UnpackIsLegal(c, may, was, w);
    LegalMatching(c, Unpack(c, may, was, w));
    FromValuesType(c, TypeOf(c, w), DmodeOf(c, w) && may, Decode(Body(c, TypeOf(c, w)), 0, Low(w, c.Top())), was);
  }

  lemma LegalMatching(c: Config, t: Unpacked)
    requires Legal(c, t)
    ensures t.matching < 16
  {
  }

  lemma FromValuesType(c: Config, typ: nat, dmode: bool, f: seq<nat>, was: nat)
    requires |f| == |Body(c, typ)|
    ensures FromValues(c, typ, dmode, f, was).typ == typ
  {
  }

  lemma WriteKeepsSound(s: Setup, a: Access, u: Unit, w: Write)
    requires AllSound(s, u)
    ensures AllSound(s, Apply(s, a, u, w)) && |Apply(s, a, u, w).triggers| == |u.triggers|
  {
    if w.Tdata1? { NewTdata1Sound(s, a, u, w.v); }
  }

  /** A run of writes, each with its own access. */
  function Run(s: Setup, u: Unit, run: seq<(Access, Write)>): (r: Unit)
    requires u.Valid()
  {
    if run == [] then u else
    var before := Run(s, u, run[..|run| - 1]);
    if before.Valid() then Apply(s, run[|run| - 1].0, before, run[|run| - 1].1) else before
  }

  /** Over every run, by program, debugger or simulator, every trigger stays sound. */
  lemma {:induction false} RunKeepsSound(s: Setup, u: Unit, run: seq<(Access, Write)>)
    requires AllSound(s, u)
    ensures AllSound(s, Run(s, u, run)) && |Run(s, u, run).triggers| == |u.triggers|
  {
    if run != [] {
      RunKeepsSound(s, u, run[..|run| - 1]);
      WriteKeepsSound(s, run[|run| - 1].0, Run(s, u, run[..|run| - 1]), run[|run| - 1].1);
    }
  }

  predicate ProgramOnly(run: seq<(Access, Write)>) {
    forall i :: 0 <= i < |run| ==> !run[i].0.Privileged()
  }

  /** Runs of program writes never touch a dmode=1 trigger and never make one. */
  lemma {:induction false} ProgramRunRespectsDmode(s: Setup, u: Unit, run: seq<(Access, Write)>, k: nat)
    requires AllSound(s, u) && ProgramOnly(run) && k < |u.triggers|
    ensures var r := Run(s, u, run);
            k < |r.triggers| &&
            if u.triggers[k].tdata1.dmode then r.triggers[k] == u.triggers[k] else !r.triggers[k].tdata1.dmode
  {
    if run != [] {
      var before := run[..|run| - 1];
      ProgramRunRespectsDmode(s, u, before, k);
      RunKeepsSound(s, u, before);
      var b := Run(s, u, before);
      var (a, w) := run[|run| - 1];
      if w.Tdata1? { NewTdata1Sound(s, a, b, w.v); }
    }
  }

  // ----- configuration and reset -----

  /** The lowest type from k on, zero if there is none. */
  function LowestFrom(types: set<nat>, k: nat): (t: nat)
    decreases 16 - k
  {
    if k >= 16 then 0 else if k in types then k else LowestFrom(types, k + 1)
  }

  lemma {:induction false} LowestIsLeast(types: set<nat>, k: nat, t: nat)
    requires t in types && k <= t < 16
    ensures LowestFrom(types, k) in types && k <= LowestFrom(types, k) <= t
    decreases 16 - k
  {
    if k !in types { LowestIsLeast(types, k + 1, t); }
  }

  /** The type of a trigger at reset: the lowest that tinfo advertises. */
  function ResetType(c: Config): (t: nat) { LowestFrom(c.types, 0) }

  lemma ResetTypeAdvertised(c: Config)
    requires c.Valid() && c.types != {}
    ensures ResetType(c) in c.types && forall t :: t in c.types ==> ResetType(c) <= t
  {
    var x :| x in c.types;
    LowestIsLeast(c.types, 0, x);
    forall t | t in c.types ensures ResetType(c) <= t { LowestIsLeast(c.types, 0, t); }
  }

  /** Triggers as configured: everything clear but the type. */
  ghost predicate Configured(s: Setup, u: Unit) {
    u.Valid() && forall k :: 0 <= k < |u.triggers| ==> u.triggers[k].tdata1 == CLEAR.(typ := ResetType(s.c1))
  }

  lemma ConfiguredIsSound(s: Setup, u: Unit)
    requires s.c1.Valid() && s.c1.types != {} && Configured(s, u)
    ensures AllSound(s, u)
  {
    ResetTypeAdvertised(s.c1);
  }

  /** The value that reset writes to tdata1. */
  function ResetWord(c: Config): (v: nat) { Join(0, c.Top(), 2 * ResetType(c)) }

  const ARTIFACT: Access := Access(true, false)

  lemma WriteKeepsValid(s: Setup, a: Access, u: Unit, w: Write)
    requires u.Valid()
    ensures Apply(s, a, u, w).Valid() && |Apply(s, a, u, w).triggers| == |u.triggers|
  {
    if w.Tdata1? {
      var t := u.triggers[u.tselect].tdata1;
      UnpackKeepsType(s.c1, a.Privileged(), t.matching, Blend(w.v, Pack(s.c1, t), s.c1.mask, s.c1.Xlen()));
    }
  }

  lemma {:induction false} RunKeepsValid(s: Setup, u: Unit, run: seq<(Access, Write)>)
    requires u.Valid()
    ensures Run(s, u, run).Valid() && |Run(s, u, run).triggers| == |u.triggers|
  {
    if run != [] {
      RunKeepsValid(s, u, run[..|run| - 1]);
      WriteKeepsValid(s, run[|run| - 1].0, Run(s, u, run[..|run| - 1]), run[|run| - 1].1);
    }
  }

  /** tdata1 of a trigger after the artifact write of the reset value: its neighbours do not matter. */
  function ResetTdata1(s: Setup, t: Unpacked): (r: Unpacked) {
    var before := Pack(s.c1, t);
    var w := Blend(ResetWord(s.c1), before, s.c1.mask, s.c1.Xlen());
    var n := Unpack(s.c1, true, t.matching, w);
    if TypeOf(s.c1, w) in s.c1.types && Pack(s.c1, n) != before then n else t
  }

  function ResetTrigger(s: Setup, t: Trigger): (r: Trigger) { t.(tdata1 := ResetTdata1(s, t.tdata1)) }

  /** Reset of the unit: every trigger in turn, and then the first one selected. */
  function Reset(s: Setup, u: Unit): (r: Unit) {
    Unit(0, seq(|u.triggers|, i requires 0 <= i < |u.triggers| => ResetTrigger(s, u.triggers[i])))
  }

  lemma ResetKeepsMatching(s: Setup, t: Trigger)
    requires t.tdata1.matching < 16
    ensures ResetTrigger(s, t).tdata1.matching < 16
  {
    var w := Blend(ResetWord(s.c1), Pack(s.c1, t.tdata1), s.c1.mask, s.c1.Xlen());
    UnpackKeepsType(s.c1, true, t.tdata1.matching, w);
  }

  /** The first n triggers of done, and the rest of todo. */
  function Partly(done: seq<Trigger>, todo: seq<Trigger>, n: nat): (ts: seq<Trigger>)
    requires n <= |done| == |todo|
  {
    done[..n] + todo[n..]
  }

  /** Every trigger of done is one of todo after reset. */
  ghost predicate AllReset(s: Setup, todo: seq<Trigger>, done: seq<Trigger>) {
    |done| == |todo| && forall k :: 0 <= k < |todo| ==> done[k] == ResetTrigger(s, todo[k])
  }

  lemma PartlyNext(s: Setup, todo: seq<Trigger>, done: seq<Trigger>, n: nat)
    requires AllReset(s, todo, done) && n < |todo| && forall k :: 0 <= k < |todo| ==> todo[k].tdata1.matching < 16
    ensures var ts := Partly(done, todo, n);
            ts[n] == todo[n] && ts[n := ResetTrigger(s, todo[n])] == Partly(done, todo, n + 1) &&
            forall k :: 0 <= k < |ts| ==> ts[k].tdata1.matching < 16
  {
    var ts := Partly(done, todo, n);
    forall k | 0 <= k < n ensures ts[k].tdata1.matching < 16 { ResetKeepsMatching(s, todo[k]); }
  }

  /** Selecting a trigger and writing the reset value, as artifact accesses, resets it and nothing else. */
  lemma ResetIsWrites(s: Setup, u: Unit, k: nat)
    requires u.Valid() && k < |u.triggers|
    ensures var b := Apply(s, ARTIFACT, u, Tselect(k));
            b.Valid() &&
            Apply(s, ARTIFACT, b, Tdata1(ResetWord(s.c1))) == Unit(k, u.triggers[k := ResetTrigger(s, u.triggers[k])])
  {
  }

  // ----- writing back what was read -----

  /** Interrupt and exception triggers always fire before execution, but are configured with the flag clear. */
  function Norm(t: Unpacked): (r: Unpacked) { if IsItrigger(t.typ) then t.(timing := true) else t }

  predicate Settled(c: Config, t: Unpacked) { Legal(c, Norm(t)) }

  /** An instruction count trigger as configured, its read-only count not yet one. */
  predicate Unstarted(t: Unpacked) { t == CLEAR.(typ := TT_ICOUNT) }

  lemma PackNorm(c: Config, t: Unpacked)
    ensures Pack(c, Norm(t)) == Pack(c, t)
  {
    assert Values(c, Norm(t)) == Values(c, t);
  }

  lemma SettledWriteBack(s: Setup, a: Access, u: Unit)
    requires s.c1.Valid() && u.Valid()
    requires var t := u.triggers[u.tselect].tdata1;
             Settled(s.c1, t) && (t.dmode ==> a.Privileged())
    ensures NewTdata1(s, a, u, Pack(s.c1, u.triggers[u.tselect].tdata1)) == u.triggers[u.tselect].tdata1
  {
    var t := u.triggers[u.tselect].tdata1;
    PackNorm(s.c1, t);
    UnpackPack(s.c1, a.Privileged(), t.matching, Norm(t));
    BlendSame(Pack(s.c1, t), s.c1.mask, s.c1.Xlen());
  }

  /** A register with the given fields, below dmode and type. */
  function Register(c: Config, l: Layout, fs: seq<nat>, dmode: bool, typ: nat): (v: nat)
    requires |fs| == |l|
  {
    Join(Encode(l, 0, fs), c.Top(), N(dmode) + 2 * typ)
  }

  lemma RegistersDiffer(c: Config, l: Layout, fs: seq<nat>, gs: seq<nat>, d: bool, e: bool, typ: nat)
    requires Fits(l, fs) && Fits(l, gs) && Width(l, 0) == c.Top() && typ < 16 && fs != gs
    ensures Register(c, l, fs, d, typ) != Register(c, l, gs, e, typ)
  {
    RegisterParts(c, l, fs, d, typ);
    RegisterParts(c, l, gs, e, typ);
  }

  lemma RegisterHead(c: Config, l: Layout, fs: seq<nat>, d: bool, typ: nat)
    requires Fits(l, fs) && Width(l, 0) == c.Top() && typ < 16
    ensures var v := Register(c, l, fs, d, typ);
            TypeOf(c, v) == typ && DmodeOf(c, v) == d && v < Pow2(c.Xlen())
  {
    RegisterParts(c, l, fs, d, typ);
    assert c.Xlen() == c.Top() + 5;
  }

  /** Instruction count triggers as registers. */
  lemma PackedIcount(c: Config, t: Unpacked)
    requires t.typ == TT_ICOUNT
    ensures |IcountValues(c, t)| == |Body(c, TT_ICOUNT)|
    ensures Pack(c, t) == Register(c, Body(c, TT_ICOUNT), IcountValues(c, t), t.dmode, TT_ICOUNT)
  {
  }

  lemma ClearIcountFits(c: Config)
    ensures Fits(Body(c, TT_ICOUNT), IcountValues(c, CLEAR.(typ := TT_ICOUNT)))
  {
    SmallPowers();
  }

  lemma UnstartedHead(c: Config)
    ensures var v := Pack(c, CLEAR.(typ := TT_ICOUNT));
            TypeOf(c, v) == TT_ICOUNT && !DmodeOf(c, v) && v < Pow2(c.Xlen())
  {
    var t := CLEAR.(typ := TT_ICOUNT);
    PackedIcount(c, t);
    ClearIcountFits(c);
    BodyWidth(c, TT_ICOUNT);
    RegisterHead(c, Body(c, TT_ICOUNT), IcountValues(c, t), false, TT_ICOUNT);
  }

  lemma StartedDiffers(c: Config, n: Unpacked)
    requires Legal(c, n) && n.typ == TT_ICOUNT
    ensures Pack(c, n) != Pack(c, CLEAR.(typ := TT_ICOUNT)) && n.count == 1
  {
    var t := CLEAR.(typ := TT_ICOUNT);
    PackedIcount(c, t);
    PackedIcount(c, n);
    ClearIcountFits(c);
    IcountFits(c, n);
    BodyWidth(c, TT_ICOUNT);
    assert IcountValues(c, t)[2] == 0 && IcountValues(c, n)[2] == 1;
    RegistersDiffer(c, Body(c, TT_ICOUNT), IcountValues(c, n), IcountValues(c, t), n.dmode, false, TT_ICOUNT);
  }

  lemma UnstartedWriteBack(s: Setup, a: Access, u: Unit)
    requires u.Valid() && TT_ICOUNT in s.c1.types
    requires Unstarted(u.triggers[u.tselect].tdata1)
    ensures NewTdata1(s, a, u, Pack(s.c1, u.triggers[u.tselect].tdata1)).count == 1
  {
    var v := Pack(s.c1, u.triggers[u.tselect].tdata1);
    UnstartedHead(s.c1);
    BlendSame(v, s.c1.mask, s.c1.Xlen());
    UnpackIsLegal(s.c1, a.Privileged(), 0, v);
    StartedDiffers(s.c1, Unpack(s.c1, a.Privileged(), 0, v));
  }

  ghost predicate AllSettled(s: Setup, u: Unit) {
    AllSound(s, u) && forall k :: 0 <= k < |u.triggers| ==> Settled(s.c1, u.triggers[k].tdata1)
  }

  lemma NewTdata1Settled(s: Setup, a: Access, u: Unit, v: nat)
    requires u.Valid()
    ensures var r := NewTdata1(s, a, u, v); r == u.triggers[u.tselect].tdata1 || Settled(s.c1, r)
  {
    var t := u.triggers[u.tselect].tdata1;
    UnpackIsLegal(s.c1, a.Privileged(), t.matching, Blend(v, Pack(s.c1, t), s.c1.mask, s.c1.Xlen()));
  }

  lemma {:induction false} RunKeepsSettled(s: Setup, u: Unit, run: seq<(Access, Write)>)
    requires AllSettled(s, u)
    ensures AllSettled(s, Run(s, u, run))
  {
    if run != [] {
      RunKeepsSettled(s, u, run[..|run| - 1]);
      var b := Run(s, u, run[..|run| - 1]);
      var (a, w) := run[|run| - 1];
      WriteKeepsSound(s, a, b, w);
      if w.Tdata1? { NewTdata1Settled(s, a, b, w.v); }
    }
  }

  // ----- reset settles the configured triggers -----

  lemma {:induction false} JoinZero(n: nat)
    ensures Join(0, n, 0) == 0
  {
    if n > 0 { JoinZero(n - 1); }
  }

  lemma {:induction false} EncodeZeros(l: Layout, k: nat, fs: seq<nat>)
    requires k <= |l| == |fs| && forall i :: 0 <= i < |fs| ==> fs[i] == 0
    ensures Encode(l, k, fs) == 0
    decreases |l| - k
  {
    if k < |l| {
      EncodeZeros(l, k + 1, fs);
      JoinZero(l[k]);
    }
  }

  /** For an instruction count trigger, reset writes the configured trigger. */
  lemma ResetWordIcount(c: Config)
    requires ResetType(c) == TT_ICOUNT
    ensures ResetWord(c) == Pack(c, CLEAR.(typ := TT_ICOUNT))
  {
    var t := CLEAR.(typ := TT_ICOUNT);
    PackedIcount(c, t);
    EncodeZeros(Body(c, TT_ICOUNT), 0, IcountValues(c, t));
  }

  lemma ConfiguredIsLegal(c: Config, typ: nat)
    requires typ < 16 && typ != TT_ICOUNT
    ensures Settled(c, CLEAR.(typ := typ))
  {
  }

  /** A trigger by itself. */
  function Alone(t: Unpacked): (u: Unit) { Unit(0, [Trigger(t, 0, Unpacked3(0, 0, 0, 0, 0))]) }

  lemma ResetAlone(s: Setup, t: Unpacked)
    requires t.matching < 16
    ensures Alone(t).Valid() && ResetTdata1(s, t) == NewTdata1(s, ARTIFACT, Alone(t), ResetWord(s.c1))
  {
  }

  lemma ResetTdata1Settles(s: Setup, t: Unpacked)
    requires ResetType(s.c1) < 16 && ResetType(s.c1) in s.c1.types && t == CLEAR.(typ := ResetType(s.c1))
    ensures Settled(s.c1, ResetTdata1(s, t)) && Sound(s, ResetTdata1(s, t))
  {
    var b := Alone(t);
    ResetAlone(s, t);
    NewTdata1Sound(s, ARTIFACT, b, ResetWord(s.c1));
    NewTdata1Settled(s, ARTIFACT, b, ResetWord(s.c1));
    if ResetType(s.c1) == TT_ICOUNT {
      ResetWordIcount(s.c1);
      UnstartedWriteBack(s, ARTIFACT, b);
    } else {
      ConfiguredIsLegal(s.c1, ResetType(s.c1));
    }
  }

  /** After configuration and reset, every trigger is settled: no count is left at zero. */
  lemma ResetIsSettled(s: Setup, u: Unit)
    requires s.c1.Valid() && s.c1.types != {} && Configured(s, u)
    ensures AllSettled(s, Reset(s, u))
  {
    ResetTypeAdvertised(s.c1);
    ResetTdata1Settles(s, CLEAR.(typ := ResetType(s.c1)));
  }

  /** The write mask of tdata1 is only set up after the first reset. */
  function Masked(s: Setup, mask: nat): (r: Setup) { s.(c1 := s.c1.(mask := mask)) }

  lemma SettledForAnyMask(s: Setup, mask: nat, u: Unit)
    requires AllSettled(Masked(s, mask), u)
    ensures AllSettled(s, u)
  {
    forall k | 0 <= k < |u.triggers| ensures Settled(s.c1, u.triggers[k].tdata1) {
      assert Settled(Masked(s, mask).c1, u.triggers[k].tdata1);
    }
  }

  lemma WriteBackIsIdle(s: Setup, u: Unit, a: Access)
    requires s.c1.Valid() && AllSettled(s, u)
    ensures Apply(s, a, u, Tdata1(Pack(s.c1, u.triggers[u.tselect].tdata1))) == u
  {
    var t := u.triggers[u.tselect];
    if MayWriteTrigger(a, t) {
      SettledWriteBack(s, a, u);
      assert u.triggers[u.tselect := t] == u.triggers;
    }
  }

  /**
   * After configuration and reset, with whatever write mask, and every run of writes since,
   * writing back the tdata1 value that is read leaves the unit as it is, whoever writes it.
   */
  lemma ReadTdata1WritesBack(s: Setup, mask: nat, u: Unit, run: seq<(Access, Write)>, a: Access)
    requires s.c1.Valid() && s.c1.types != {} && Configured(s, u)
    ensures var z := Reset(Masked(s, mask), u);
            z.Valid() &&
            var r := Run(s, z, run);
            r.Valid() && Apply(s, a, r, Tdata1(Pack(s.c1, r.triggers[r.tselect].tdata1))) == r
  {
    ResetIsSettled(Masked(s, mask), u);
    var z := Reset(Masked(s, mask), u);
    SettledForAnyMask(s, mask, z);
    RunKeepsSettled(s, z, run);
    WriteBackIsIdle(s, Run(s, z, run), a);
  }

  // ----- when writes take effect -----

  /** A trigger that program code may write, or any trigger for Debug mode and the simulator. */
  predicate Writable(a: Access, t: Trigger) { a.artifact || a.debug || !t.tdata1.dmode }

  /** A dmode=0 trigger is chained to trigger k. */
  predicate ChainedTo(u: Unit, k: nat)
    requires k < |u.triggers|
  {
    k > 0 && u.triggers[k - 1].tdata1.chain && !u.triggers[k - 1].tdata1.dmode
  }

  /** The unpacked value of a tdata1 write. */
  function Written(s: Setup, a: Access, u: Unit, v: nat): (n: Unpacked)
    requires u.Valid()
  {
    var t := u.triggers[u.tselect].tdata1;
    Unpack(s.c1, a.Privileged(), t.matching, Blend(v, Pack(s.c1, t), s.c1.mask, s.c1.Xlen()))
  }

  /** The type that a tdata1 write would give the trigger. */
  function WrittenType(s: Setup, u: Unit, v: nat): (typ: nat)
    requires u.Valid()
  {
    TypeOf(s.c1, Blend(v, Pack(s.c1, u.triggers[u.tselect].tdata1), s.c1.mask, s.c1.Xlen()))
  }

  lemma ChainExactly(a: Access, dmode: bool, u: Unit)
    requires u.Valid()
    ensures MayWriteChain(a, dmode, u) <==> !(!a.artifact && dmode && ChainedTo(u, u.tselect))
  {
  }

  lemma NewTdata1Exactly(s: Setup, a: Access, u: Unit, v: nat)
    requires u.Valid()
    ensures var k, n := u.tselect, Written(s, a, u, v);
            var t := u.triggers[k].tdata1;
            var breaks := !a.artifact && n.dmode && ChainedTo(u, k);
            NewTdata1(s, a, u, v) ==
            if WrittenType(s, u, v) in s.c1.types && !breaks && Pack(s.c1, n) != Pack(s.c1, t) then n else t
  {
    ChainExactly(a, Written(s, a, u, v).dmode, u);
  }

  /**
   * A tdata1 write leaves the unpacked value in the selected trigger if and only if the trigger is writable, tinfo
   * advertises the type, and it is not the case that a debugger sets dmode of a trigger to which a dmode=0 trigger is
   * chained; a value that reads as the trigger does already is not stored. Otherwise nothing changes.
   */
  lemma Tdata1TakesEffect(s: Setup, a: Access, u: Unit, v: nat)
    requires u.Valid()
    ensures var k, n := u.tselect, Written(s, a, u, v);
            var t := u.triggers[k];
            var r := Apply(s, a, u, Tdata1(v));
            var breaks := !a.artifact && n.dmode && ChainedTo(u, k);
            if Writable(a, t) && WrittenType(s, u, v) in s.c1.types && !breaks && Pack(s.c1, n) != Pack(s.c1, t.tdata1)
            then r == u.(triggers := u.triggers[k := t.(tdata1 := n)])
            else r == u
  {
    NewTdata1Exactly(s, a, u, v);
    assert u.triggers[u.tselect := u.triggers[u.tselect]] == u.triggers;
  }

  /** The trigger then reads as the unpacked value, or as it did. */
  lemma Tdata1Reads(s: Setup, a: Access, u: Unit, v: nat)
    requires u.Valid()
    ensures var k, n := u.tselect, Written(s, a, u, v);
            var t := u.triggers[k];
            var breaks := !a.artifact && n.dmode && ChainedTo(u, k);
            Pack(s.c1, Apply(s, a, u, Tdata1(v)).triggers[k].tdata1) ==
            if Writable(a, t) && WrittenType(s, u, v) in s.c1.types && !breaks then Pack(s.c1, n)
            else Pack(s.c1, t.tdata1)
  {
    Tdata1TakesEffect(s, a, u, v);
  }

  /** No debugger or program write sets dmode of a trigger to which a dmode=0 trigger is chained. */
  lemma ChainKeepsDmode(s: Setup, a: Access, u: Unit, w: Write, k: nat)
    requires u.Valid() && !a.artifact && k < |u.triggers| && ChainedTo(u, k) && !u.triggers[k].tdata1.dmode
    ensures !Apply(s, a, u, w).triggers[k].tdata1.dmode
  {
    if w.Tdata1? { Tdata1TakesEffect(s, a, u, w.v); }
  }

  /** tselect takes the numbers of implemented triggers, for any access, and leaves the triggers alone. */
  lemma TselectTakesEffect(s: Setup, a: Access, u: Unit, v: nat)
    requires u.Valid()
    ensures Apply(s, a, u, Tselect(v)) == Unit(if v < |u.triggers| then v else u.tselect, u.triggers)
  {
  }

  /** tdata2 and tdata3 are written exactly where the trigger is writable. */
  lemma OthersTakeEffect(s: Setup, a: Access, u: Unit, v: nat)
    requires u.Valid()
    ensures var k := u.tselect;
            var t := u.triggers[k];
            var w := Writable(a, t);
            Apply(s, a, u, Tdata2(v)) ==
              (if w then u.(triggers := u.triggers[k := t.(tdata2 := NewTdata2(s, a, t, v))]) else u) &&
            Apply(s, a, u, Tdata3(v)) ==
              (if w then u.(triggers := u.triggers[k := t.(tdata3 := Unpack3(s.c1.rv32, s.c3, v))]) else u)
  {
  }

  // ----- tdata2 -----

  /** tdata2 as read: bits of interrupts or exceptions that do not exist read as zero. */
  function ReadTdata2(s: Setup, a: Access, t: Trigger): (v: nat) {
    if a.artifact then t.tdata2
    else if t.tdata1.typ == TT_INTERRUPT then Blend(t.tdata2, 0, s.interruptMask, s.c1.Xlen())
    else if t.tdata1.typ == TT_EXCEPTION then Blend(t.tdata2, 0, s.exceptionMask, s.c1.Xlen())
    else t.tdata2
  }

  /** Bits of tdata2 as a program reads them. */
  lemma Tdata2ReadBits(s: Setup, t: Trigger, debug: bool, k: nat)
    requires k < s.c1.Xlen()
    ensures Bit(ReadTdata2(s, Access(false, debug), t), k) ==
            (Bit(t.tdata2, k) && (t.tdata1.typ == 4 ==> Bit(s.interruptMask, k)) &&
             (t.tdata1.typ == 5 ==> Bit(s.exceptionMask, k)))
    ensures ReadTdata2(s, Access(true, debug), t) == t.tdata2
  {
    BlendBit(t.tdata2, 0, s.interruptMask, s.c1.Xlen(), k);
    BlendBit(t.tdata2, 0, s.exceptionMask, s.c1.Xlen(), k);
    ZeroHasNoBit(k);
  }

  /** All ones in an address match of type 6 stands for the largest naturally aligned range. */
  predicate WidestRange(s: Setup, a: Access, t: Trigger, v: nat) {
    !a.artifact && t.tdata1.typ == TT_MCONTROL6 && v == Pow2(s.c1.Xlen()) - 1
  }

  lemma {:induction false} BlendTwice(a: nat, b: nat, mask: nat, n: nat)
    ensures Blend(Blend(a, b, mask, n), 0, mask, n) == Blend(a, 0, mask, n)
  {
    if n > 0 { BlendTwice(a / 2, b / 2, mask / 2, n - 1); }
  }

  lemma {:induction false} BlendBack(b: nat, mask: nat, n: nat)
    requires b < Pow2(n)
    ensures Blend(Blend(b, 0, mask, n), b, mask, n) == b
  {
    if n > 0 { BlendBack(b / 2, mask / 2, n - 1); }
  }

  lemma {:induction false} LowSmall(v: nat, n: nat)
    requires v < Pow2(n)
    ensures Low(v, n) == v
  {
    if n > 0 { LowSmall(v / 2, n - 1); }
  }

  lemma {:induction false} BlendBit(a: nat, b: nat, mask: nat, n: nat, k: nat)
    requires k < n
    ensures Bit(Blend(a, b, mask, n), k) == if Bit(mask, k) then Bit(a, k) else Bit(b, k)
  {
    if k > 0 {
      BlendBit(a / 2, b / 2, mask / 2, n - 1, k - 1);
      assert Blend(a, b, mask, n) / 2 == Blend(a / 2, b / 2, mask / 2, n - 1);
    }
  }

  /** A write reads back as written, in the bits that exist; only the widest range may be narrowed. */
  lemma Tdata2ReadsBack(s: Setup, a: Access, t: Trigger, v: nat)
    requires v < Pow2(s.c1.Xlen()) && !WidestRange(s, a, t, v)
    ensures ReadTdata2(s, a, t.(tdata2 := NewTdata2(s, a, t, v))) == ReadTdata2(s, a, t.(tdata2 := v))
  {
    var n := s.c1.Xlen();
    LowSmall(v, n);
    BlendTwice(v, t.tdata2, s.interruptMask, n);
    BlendTwice(v, t.tdata2, s.exceptionMask, n);
  }

  /** Bits of interrupts and exceptions that do not exist are not changed by a write. */
  lemma Tdata2KeepsAbsentBits(s: Setup, a: Access, t: Trigger, v: nat, k: nat)
    requires k < s.c1.Xlen() && !a.artifact
    requires (t.tdata1.typ == TT_INTERRUPT && !Bit(s.interruptMask, k)) ||
             (t.tdata1.typ == TT_EXCEPTION && !Bit(s.exceptionMask, k))
    ensures Bit(NewTdata2(s, a, t, v), k) == Bit(t.tdata2, k)
  {
    var mask := if t.tdata1.typ == TT_INTERRUPT then s.interruptMask else s.exceptionMask;
    BlendBit(v, t.tdata2, mask, s.c1.Xlen(), k);
  }

  lemma {:induction false} OnesJoin(k: nat, n: nat)
    ensures Low(Join(0, k, Pow2(n) - 1), n) == Pow2(n) - 1 <==> k == 0 || n == 0
    ensures Low(Join(0, k, Pow2(n) - 1), n) < Pow2(n)
  {
    LowBound(Join(0, k, Pow2(n) - 1), n);
    if k == 0 {
      LowSmall(Pow2(n) - 1, n);
    } else if n > 0 {
      assert Join(0, k, Pow2(n) - 1) % 2 == 0;
    }
  }

  /**
   * Writing back the tdata2 value that is read changes nothing, except exactly where all ones
   * is held by an address match of type 6 whose range is limited.
   */
  lemma Tdata2WritesBack(s: Setup, a: Access, t: Trigger)
    requires t.tdata2 < Pow2(s.c1.Xlen())
    ensures NewTdata2(s, a, t, ReadTdata2(s, a, t)) == t.tdata2 <==>
            !WidestRange(s, a, t, t.tdata2) || s.c1.maskmax == 0
  {
    var n := s.c1.Xlen();
    LowSmall(t.tdata2, n);
    BlendBack(t.tdata2, s.interruptMask, n);
    BlendBack(t.tdata2, s.exceptionMask, n);
    OnesJoin(s.c1.maskmax, n);
  }

  lemma {:induction false} OnesBit(n: nat, k: nat)
    requires k < n
    ensures Bit(Pow2(n) - 1, k)
  {
    if k > 0 {
      assert (Pow2(n) - 1) / 2 == Pow2(n - 1) - 1;
      OnesBit(n - 1, k - 1);
    }
  }

  lemma {:induction false} LowBit(v: nat, n: nat, k: nat)
    requires k < n
    ensures Bit(Low(v, n), k) == Bit(v, k)
  {
    if k > 0 {
      assert Low(v, n) / 2 == Low(v / 2, n - 1);
      LowBit(v / 2, n - 1, k - 1);
    }
  }

  lemma {:induction false} ShiftedBit(m: nat, v: nat, k: nat)
    ensures Bit(Join(0, m, v), k) == (k >= m && Bit(v, if k >= m then k - m else 0))
  {
    if m > 0 && k > 0 {
      assert Join(0, m, v) / 2 == Join(0, m - 1, v);
      ShiftedBit(m - 1, v, k - 1);
    }
  }

  /** The widest range is narrowed to mcontrol_maskmax: that many low bits are clear, and the others set. */
  lemma Tdata2Narrowed(s: Setup, a: Access, t: Trigger, v: nat, k: nat)
    requires WidestRange(s, a, t, v) && k < s.c1.Xlen()
    ensures Bit(NewTdata2(s, a, t, v), k) == (k >= s.c1.maskmax)
  {
    var n := s.c1.Xlen();
    var ones := Pow2(n) - 1;
    LowBit(Join(0, s.c1.maskmax, ones), n, k);
    ShiftedBit(s.c1.maskmax, ones, k);
    if k >= s.c1.maskmax { OnesBit(n, k - s.c1.maskmax); }
  }

  lemma {:induction false} BlendBound(a: nat, b: nat, mask: nat, n: nat)
    ensures Blend(a, b, mask, n) < Pow2(n)
  {
    if n > 0 { BlendBound(a / 2, b / 2, mask / 2, n - 1); }
  }

  lemma NewTdata2Fits(s: Setup, a: Access, t: Trigger, v: nat)
    ensures NewTdata2(s, a, t, v) < Pow2(s.c1.Xlen())
  {
    var n := s.c1.Xlen();
    LowBound(v, n);
    LowBound(Join(0, s.c1.maskmax, Pow2(n) - 1), n);
    BlendBound(v, t.tdata2, s.interruptMask, n);
    BlendBound(v, t.tdata2, s.exceptionMask, n);
  }

  ghost predicate AllTdata2Fit(s: Setup, u: Unit) {
    u.Valid() && forall k :: 0 <= k < |u.triggers| ==> u.triggers[k].tdata2 < Pow2(s.c1.Xlen())
  }

  /** tdata2 stays within the register over every run. */
  lemma {:induction false} RunKeepsTdata2(s: Setup, u: Unit, run: seq<(Access, Write)>)
    requires AllTdata2Fit(s, u)
    ensures AllTdata2Fit(s, Run(s, u, run))
  {
    if run != [] {
      var p := run[..|run| - 1];
      RunKeepsTdata2(s, u, p);
      RunKeepsValid(s, u, run);
      var b := Run(s, u, p);
      var (a, w) := run[|run| - 1];
      if w.Tdata2? { NewTdata2Fits(s, a, b.triggers[b.tselect], w.v); }
    }
  }
}
