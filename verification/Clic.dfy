/** The Core-Local Interrupt Controller: its state and what each register access does to it. */
module Clic {
  import opened Bits

  type Byte = b: nat | b < 256
  type Two = n: nat | n < 4       // a two-bit field

  const MODE_U: Two := 0
  const MODE_S: Two := 1
  const MODE_H: Two := 2
  const MODE_M: Two := 3

  /** clicintattr: shv in bit 0, trig in bits 2:1, mode in bits 7:6. */
  datatype Attr = Attr(shv: bool, trig: Two, mode: Two) {
    /** Bit 0 of trig: edge triggered. */
    predicate Edge() { trig % 2 == 1 }
    /** Bit 1 of trig: active low. */
    predicate ActiveLow() { trig / 2 == 1 }
    function Bits(): Byte { (if shv then 1 else 0) + 2 * trig + 64 * mode }
  }

  /** The control bytes of one interrupt; clicintip and clicintie only ever hold 0 or 1. */
  datatype IntState = IntState(ip: bool, ie: bool, attr: Attr, ctl: Byte)

  /** Configuration constants of the cluster root. */
  datatype Config = Config(
    intNum: nat,             // clicinfo.num_interrupt
    ctlBits: nat,            // CLICINTCTLBITS
    cfgMBits: nat,           // CLICCFGMBITS
    cfgLBits: nat,           // CLICCFGLBITS
    nlbitsValid: set<nat>,   // legal values of nlbits
    selHVec: bool,           // CLICSELHVEC
    perMode: bool,           // xcliccfg registers per mode
    mayPendLevel: bool,      // software may pend level-triggered interrupts
    nvbits: bool,            // cliccfg.nvbits implemented
    infoAbsent: bool,        // clicinfo not memory mapped
    clicinfo: nat,
    ssclic: bool,
    suclic: bool)
  {
    predicate Valid() {
      ctlBits <= 8 && cfgMBits <= 2 && cfgLBits <= 8
    }
  }

  /** Root state shared by all harts. */
  datatype Global = Global(cfg: Config, nlbits: seq<nat>, nmbits: nat) {
    predicate Valid() {
      cfg.Valid() && |nlbits| == 4 && nmbits <= cfg.cfgMBits &&
      (forall m :: 0 <= m < 4 ==> nlbits[m] <= 8)
    }
  }

  /** Per-hart state. ext is the unlatched external input, ipe the cached pending-and-enabled mask. */
  datatype Hart = Hart(
    ints: seq<IntState>,
    ext: seq<bool>,
    ipe: seq<bool>,
    trigFixed: seq<bool>,
    absent: set<nat>,        // standard interrupts that are not implemented
    userInt: bool)           // N extension present
  {
    predicate Valid(n: nat) {
      |ints| == n && |ext| == n && |ipe| == n && |trigFixed| == n
    }
  }

  datatype Cluster = Cluster(g: Global, harts: seq<Hart>) {
    predicate Valid() {
      g.Valid() && forall k :: 0 <= k < |harts| ==> harts[k].Valid(g.cfg.intNum)
    }
  }

  // ----- one interrupt -----

  /** b | (2^n - 1). */
  function OrOnes(b: nat, n: nat): (r: nat) {
    if n == 0 then b else 2 * OrOnes(b / 2, n - 1) + 1
  }

  lemma {:induction false} OrOnesBounds(b: nat, n: nat, width: nat)
    requires n <= width && b < Pow2(width)
    ensures b <= OrOnes(b, n) < Pow2(width)
  {
    if n > 0 { OrOnesBounds(b / 2, n - 1, width - 1); }
  }

  /** A byte with its low n bits forced to one. */
  function FillLow(b: Byte, n: nat): (r: Byte)
    requires n <= 8
  {
    OrOnesBounds(b, n, 8);
    OrOnes(b, n)
  }

  predicate Edge(h: Hart, i: nat)
    requires i < |h.ints|
  {
    h.ints[i].attr.Edge()
  }

  /** Pending as software and the refresh see it: the latch, plus the input when level triggered. */
  predicate Pending(h: Hart, i: nat)
    requires i < |h.ints| && i < |h.ext|
  {
    h.ints[i].ip || (!Edge(h, i) && h.ext[i])
  }

  function WritePending(h: Hart, i: nat, newIP: bool, mayPendAny: bool): (r: Hart)
    requires i < |h.ints| && i < |h.ipe|
  {
    var s := h.ints[i];
    h.(ints := if mayPendAny || Edge(h, i) then h.ints[i := s.(ip := newIP)] else h.ints,
       ipe := h.ipe[i := s.ie && newIP])
  }

  function WriteEnable(h: Hart, i: nat, newIE: bool): (r: Hart)
    requires i < |h.ints| && i < |h.ipe| && i < |h.ext|
  {
    h.(ints := h.ints[i := h.ints[i].(ie := newIE)],
       ipe := h.ipe[i := Pending(h, i) && newIE])
  }

  /** The mode field that a clicintattr write of m through a page of the given mode stores. */
  function LegalMode(cfg: Config, userInt: bool, m: Two, page: Two): (r: Two)
  {
    if m > page || cfg.cfgMBits == 0 || m == MODE_H ||
       (cfg.cfgMBits < 2 && m == MODE_S) || (m == MODE_U && !userInt)
    then page
    else m
  }

  function LegalAttr(cfg: Config, h: Hart, i: nat, v: Byte, page: Two): (r: Attr)
    requires i < |h.ints| && i < |h.trigFixed|
  {
    Attr(v % 2 == 1 && cfg.selHVec,
         if h.trigFixed[i] then h.ints[i].attr.trig else v / 2 % 4,
         LegalMode(cfg, h.userInt, v / 64, page))
  }

  function WriteAttr(cfg: Config, h: Hart, i: nat, v: Byte, page: Two): (r: Hart)
    requires i < |h.ints| && i < |h.trigFixed|
  {
    h.(ints := h.ints[i := h.ints[i].(attr := LegalAttr(cfg, h, i, v, page))])
  }

  function WriteCtl(cfg: Config, h: Hart, i: nat, v: Byte): (r: Hart)
    requires i < |h.ints| && cfg.Valid()
  {
    h.(ints := h.ints[i := h.ints[i].(ctl := FillLow(v, 8 - cfg.ctlBits))])
  }

  /** Effective privilege mode of an interrupt with the given attr.mode. */
  function EffMode(g: Global, m: Two): (r: Two)
  {
    if g.nmbits == 0 then MODE_M
    else if g.cfg.cfgMBits == 1 then (if m >= 2 then MODE_M else MODE_U)
    else if g.nmbits == 1 && m % 2 == 0 then m + 1
    else m
  }

  /** The interpretation table of the CLIC draft, for one, two or three privilege modes. */
  lemma ModeTable(g: Global, m: Two)
    requires g.Valid()
    ensures g.nmbits == 0 ==> EffMode(g, m) == MODE_M
    ensures g.cfg.cfgMBits == 1 && g.nmbits == 1 ==> EffMode(g, m) == [MODE_U, MODE_U, MODE_M, MODE_M][m]
    ensures g.cfg.cfgMBits == 2 && g.nmbits == 1 ==> EffMode(g, m) == [MODE_S, MODE_S, MODE_M, MODE_M][m]
    ensures g.cfg.cfgMBits == 2 && g.nmbits == 2 ==> EffMode(g, m) == m
  {
  }

  function ModeOf(g: Global, h: Hart, i: nat): (r: Two)
    requires i < |h.ints|
  {
    EffMode(g, h.ints[i].attr.mode)
  }

  predicate Accessible(g: Global, h: Hart, i: nat, page: Two) {
    i < |h.ints| && i !in h.absent && ModeOf(g, h, i) <= page
  }

  // ----- input and acknowledge -----

  /** A change of the input signal of interrupt i. */
  function UpdateInput(h: Hart, i: nat, b: bool): (r: Hart)
    requires i < |h.ints| && i < |h.ipe| && i < |h.ext|
  {
    var h1 := h.(ext := h.ext[i := b]);
    var asserted := b != h.ints[i].attr.ActiveLow();
    if !Edge(h, i) || asserted then WritePending(h1, i, asserted, false) else h1
  }

  function Acknowledge(h: Hart, i: nat): (r: Hart)
    requires i < |h.ints| && i < |h.ipe|
  {
    if Edge(h, i) then WritePending(h, i, false, false) else h
  }

  // ----- configuration registers -----

  function SetNlbits(g: Global, mode: Two, n: nat): (r: Global)
    requires g.Valid()
    ensures r.Valid() && r.cfg == g.cfg && r.nmbits == g.nmbits
    ensures forall m :: 0 <= m < 4 && m != mode ==> r.nlbits[m] == g.nlbits[m]
  {
    var legal := if n > g.cfg.cfgLBits then g.cfg.cfgLBits
                 else if n !in g.cfg.nlbitsValid then g.nlbits[mode]
                 else n;
    g.(nlbits := g.nlbits[mode := legal])
  }

  function SetNmbits(g: Global, n: nat): (r: Global)
    requires g.Valid()
    ensures r.Valid() && r.cfg == g.cfg && r.nlbits == g.nlbits
  {
    g.(nmbits := if n > g.cfg.cfgMBits then g.cfg.cfgMBits else n)
  }

  function WriteCliccfg(g: Global, v: Byte): (r: Global)
    requires g.Valid()
    ensures r.Valid() && r.cfg == g.cfg
  {
    var g1 := SetNmbits(SetNlbits(g, MODE_M, v / 2 % 16), v / 32 % 4);
    g1.(nlbits := g1.nlbits[MODE_U := g1.nlbits[MODE_M]][MODE_S := g1.nlbits[MODE_M]])
  }

  function WriteMcliccfg(g: Global, v: Byte): (r: Global)
    requires g.Valid()
    ensures r.Valid() && r.cfg == g.cfg
  {
    SetNmbits(SetNlbits(g, MODE_M, v % 16), v / 16 % 4)
  }

  // ----- byte accesses -----

  datatype Field = ClicIntIp | ClicIntIe | ClicIntAttr | ClicIntCtl | ClicConfig

  /** A decoded byte access; hart is -1 for the configuration page. */
  datatype Desc = Desc(hart: int, raw: nat, index: nat, mode: Two, field: Field)

  predicate ValidDesc(c: Cluster, d: Desc) {
    d.field != ClicConfig ==> 0 <= d.hart < |c.harts|
  }

  function WriteField(g: Global, h: Hart, d: Desc, v: Byte): (r: Hart)
    requires g.Valid() && h.Valid(g.cfg.intNum) && d.field != ClicConfig
    ensures r.Valid(g.cfg.intNum)
  {
    if !Accessible(g, h, d.index, d.mode) then h else
    match d.field
    case ClicIntIp => WritePending(h, d.index, v % 2 == 1, g.cfg.mayPendLevel)
    case ClicIntIe => WriteEnable(h, d.index, v % 2 == 1)
    case ClicIntAttr => WriteAttr(g.cfg, h, d.index, v, d.mode)
    case ClicIntCtl => WriteCtl(g.cfg, h, d.index, v)
  }

  function WriteConfig(g: Global, d: Desc, v: Byte): (r: Global)
    requires g.Valid()
    ensures r.Valid() && r.cfg == g.cfg
  {
    if !g.cfg.perMode then (if d.index == 0 then WriteCliccfg(g, v) else g)
    else if d.index == 0 && d.mode >= MODE_M then WriteMcliccfg(g, v)
    else if d.index == 2 && d.mode >= MODE_S && g.cfg.ssclic then SetNlbits(g, MODE_S, v % 16)
    else if d.index == 3 && g.cfg.suclic then SetNlbits(g, MODE_U, v % 16)
    else g
  }

  function WriteByte(c: Cluster, d: Desc, v: Byte): (r: Cluster)
    requires c.Valid() && ValidDesc(c, d)
    ensures r.Valid() && |r.harts| == |c.harts| && r.g.cfg == c.g.cfg
  {
    if d.field == ClicConfig then c.(g := WriteConfig(c.g, d, v))
    else c.(harts := c.harts[d.hart := WriteField(c.g, c.harts[d.hart], d, v)])
  }

  function FieldByte(h: Hart, i: nat, f: Field): (r: Byte)
    requires i < |h.ints| && i < |h.ext| && f != ClicConfig
  {
    match f
    case ClicIntIp => if Pending(h, i) then 1 else 0
    case ClicIntIe => if h.ints[i].ie then 1 else 0
    case ClicIntAttr => h.ints[i].attr.Bits()
    case ClicIntCtl => h.ints[i].ctl
  }

  function ReadConfig(g: Global, d: Desc): (r: Byte)
    requires g.Valid()
  {
    if d.index / 4 == 1 && !g.cfg.infoAbsent then g.cfg.clicinfo / [1, 0x100, 0x10000, 0x1000000][d.raw % 4] % 256
    else if !g.cfg.perMode then
      if d.index != 0 then 0 else
      (if g.cfg.nvbits && g.cfg.selHVec then 1 else 0) + 2 * g.nlbits[d.mode] +
      (if d.mode == MODE_M then 32 * g.nmbits else 0)
    else if d.index == 0 && d.mode >= MODE_M then g.nlbits[MODE_M] + 16 * g.nmbits
    else if d.index == 2 && d.mode >= MODE_S && g.cfg.ssclic then g.nlbits[MODE_S]
    else if d.index == 3 && g.cfg.suclic then g.nlbits[MODE_U]
    else 0
  }

  function ReadByte(c: Cluster, d: Desc): (r: Byte)
    requires c.Valid() && ValidDesc(c, d)
  {
    if d.field == ClicConfig then ReadConfig(c.g, d)
    else if Accessible(c.g, c.harts[d.hart], d.index, d.mode) then FieldByte(c.harts[d.hart], d.index, d.field)
    else 0
  }
}
