/** What each page gives access to, stated on addresses and on the fields of the registers. */
module ClicPages {
  import opened Bits
  import opened Clic
  import opened ClicMap
  import opened ClicSelection
  import opened ClicIsolation
  import opened ClicRegisters
  import ClicCoherence

  // ----- interrupt pages -----

  /**
   * The page of a mode shows an interrupt: with nmbits 0 all interrupts are of M mode; with CLICCFGMBITS 1 those
   * with attr.mode 0x are of U mode; with CLICCFGMBITS 2 and nmbits 1 they are of S mode; otherwise attr.mode is the
   * mode.
   */
  predicate Shows(cfgMBits: nat, nmbits: nat, mode: Two, page: Two) {
    page == 3 ||
    (nmbits != 0 &&
     if cfgMBits == 1 then mode < 2
     else if nmbits == 1 then mode < 2 && page >= 1
     else mode <= page)
  }

  lemma ShowsIsMode(g: Global, mode: Two, page: Two)
    requires g.Valid() && IsPage(page)
    ensures EffMode(g, mode) <= page <==> Shows(g.cfg.cfgMBits, g.nmbits, mode, page)
  {
  }

  /** Interrupt i of a hart exists and is shown by a page. */
  predicate Own(c: Cluster, hart: nat, i: nat, page: Two)
    requires c.Valid() && hart < |c.harts|
  {
    i < c.g.cfg.intNum && i !in c.harts[hart].absent &&
    Shows(c.g.cfg.cfgMBits, c.g.nmbits, c.harts[hart].ints[i].attr.mode, page)
  }

  /** A mode that may be written through a page: not above it, not H, and implemented. */
  predicate WritableMode(cfg: Config, userInt: bool, mode: Two, page: Two) {
    mode <= page && cfg.cfgMBits > 0 && mode != 2 && (mode == 1 ==> cfg.cfgMBits == 2) && (mode == 0 ==> userInt)
  }

  /** What a write of v to clicintip, clicintie or clicintattr leaves to be read. */
  function Kept(cfg: Config, h: Hart, i: nat, f: Field, page: Two, v: Byte): (r: nat)
    requires h.Valid(cfg.intNum) && i < cfg.intNum
  {
    var s := h.ints[i];
    var edge := s.attr.trig % 2 == 1;
    if f == ClicIntIp then
      if (if edge || cfg.mayPendLevel then v % 2 == 1 else s.ip) || (!edge && h.ext[i]) then 1 else 0
    else if f == ClicIntIe then v % 2
    else
      (if cfg.selHVec then v % 2 else 0) +
      2 * (if h.trigFixed[i] then s.attr.trig else v / 2 % 4) +
      64 * (if WritableMode(cfg, h.userInt, v / 64, page) then v / 64 else page)
  }

  lemma KeptIsStored(c: Cluster, d: Desc, v: Byte)
    requires c.Valid() && ValidDesc(c, d) && d.field != ClicConfig && d.field != ClicIntCtl && d.index < c.g.cfg.intNum
    ensures Stored(c, d, v) == Kept(c.g.cfg, c.harts[d.hart], d.index, d.field, d.mode, v)
  {
  }

  /**
   * A byte of an interrupt on a page of its own mode, or of a higher one, reads back as it is kept; any other is zero
   * and ignores writes.
   */
  lemma OwnByteReadsBack(m: Map, c: Cluster, page: Two, hart: nat, i: nat, f: Field, v: Byte)
    requires MapOf(m, c) && IsPage(page) && hart < m.numHarts && i < 4096 && f != ClicConfig && f != ClicIntCtl
    ensures var a := IntAddress(m, page, hart, i, f);
            Legal(m, Access(page, a, v)) &&
            var r := Store(m, c, Access(page, a, v));
            if Own(c, hart, i, page) then Load(m, r, page, a) == Kept(c.g.cfg, c.harts[hart], i, f, page, v)
            else r == c && Load(m, c, page, a) == 0
  {
    EncodeThenDecode(m, page, hart, i, f);
    var d := Decode(m, page, IntAddress(m, page, hart, i, f));
    ReadBack(c, d, v);
    if i < c.g.cfg.intNum {
      ShowsIsMode(c.g, c.harts[hart].ints[i].attr.mode, page);
      KeptIsStored(c, d, v);
    }
  }

  /** clicintctl reads back with its CLICINTCTLBITS most significant bits as written, and ones below. */
  lemma OwnCtlReadsBack(m: Map, c: Cluster, page: Two, hart: nat, i: nat, v: Byte, k: nat)
    requires MapOf(m, c) && IsPage(page) && hart < m.numHarts && i < 4096 && k < 8
    ensures var a := IntAddress(m, page, hart, i, ClicIntCtl);
            Legal(m, Access(page, a, v)) &&
            var r := Store(m, c, Access(page, a, v));
            if Own(c, hart, i, page) then Bit(Load(m, r, page, a), k) == (k < 8 - c.g.cfg.ctlBits || Bit(v, k))
            else r == c && Load(m, c, page, a) == 0
  {
    EncodeThenDecode(m, page, hart, i, ClicIntCtl);
    var d := Decode(m, page, IntAddress(m, page, hart, i, ClicIntCtl));
    ReadBack(c, d, v);
    FillLowBit(v, 8 - c.g.cfg.ctlBits, k);
    if i < c.g.cfg.intNum { ShowsIsMode(c.g, c.harts[hart].ints[i].attr.mode, page); }
  }

  lemma SameInterrupt(c: Cluster, d: Desc, v: Byte, e: Desc)
    requires c.Valid() && ValidDesc(c, d) && e.hart == d.hart && e.index == d.index && e.mode == MODE_M
    requires d.field != ClicConfig && e.field != ClicConfig && e.field != d.field
    requires d.index < c.g.cfg.intNum
    requires var h := c.harts[d.hart];
             d.field == ClicIntAttr && e.field == ClicIntIp ==>
             LegalAttr(c.g.cfg, h, d.index, v, d.mode).Edge() == Edge(h, d.index)
    ensures ReadByte(WriteByte(c, d, v), e) == ReadByte(c, e)
  {
  }

  lemma EdgeKept(cfg: Config, h: Hart, i: nat, v: Byte, page: Two)
    requires i < |h.ints| && i < |h.trigFixed| && (h.trigFixed[i] || v / 2 % 2 == h.ints[i].attr.trig % 2)
    ensures LegalAttr(cfg, h, i, v, page).Edge() == Edge(h, i)
  {
  }

  /** A write to one byte of an interrupt does not show in the others, except that a new trigger may show the input. */
  lemma FieldsLieApart(m: Map, c: Cluster, page: Two, hart: nat, i: nat, f: Field, v: Byte, f': Field)
    requires MapOf(m, c) && IsPage(page) && hart < m.numHarts && i < c.g.cfg.intNum && i < 4096
    requires f != ClicConfig && f' != ClicConfig && f != f'
    requires f == ClicIntAttr && f' == ClicIntIp ==>
               c.harts[hart].trigFixed[i] || v / 2 % 2 == c.harts[hart].ints[i].attr.trig % 2
    ensures var a, b := IntAddress(m, page, hart, i, f), IntAddress(m, MODE_M, hart, i, f');
            Legal(m, Access(page, a, v)) && m.InRegion(MODE_M, b) &&
            Load(m, Store(m, c, Access(page, a, v)), MODE_M, b) == Load(m, c, MODE_M, b)
  {
    EncodeThenDecode(m, page, hart, i, f);
    EncodeThenDecode(m, MODE_M, hart, i, f');
    var d := Decode(m, page, IntAddress(m, page, hart, i, f));
    var e := Decode(m, MODE_M, IntAddress(m, MODE_M, hart, i, f'));
    if f == ClicIntAttr && f' == ClicIntIp { EdgeKept(c.g.cfg, c.harts[hart], i, v, page); }
    SameInterrupt(c, d, v, e);
  }

  // ----- configuration bytes -----

  /** nlbits after a write of n over old. */
  function NewNlbits(cfg: Config, was: nat, n: nat): (r: nat) {
    if n > cfg.cfgLBits then cfg.cfgLBits else if n in cfg.nlbitsValid then n else was
  }

  function NewNmbits(cfg: Config, n: nat): (r: nat) { if n <= cfg.cfgMBits then n else cfg.cfgMBits }

  lemma NlbitsSet(g: Global, mode: Two, n: nat)
    requires g.Valid()
    ensures SetNlbits(g, mode, n).nlbits[mode] == NewNlbits(g.cfg, g.nlbits[mode], n)
  {
  }

  lemma ConfigDecodes(m: Map, page: Two, k: nat)
    requires m.Fits() && IsPage(page) && k < 4096 && m.HasConfigPage(page)
    ensures var a := ConfigAddress(m, page, k);
            m.InRegion(page, a) && Decode(m, page, a).index == k && Decode(m, page, a).field == ClicConfig &&
            Decode(m, page, a).mode == page && (page == MODE_M ==> Decode(m, page, a).raw == k)
  {
    EncodeThenDecode(m, page, 0, k, ClicConfig);
  }

  /** mcliccfg: nlbits in bits 3:0 and nmbits in bits 5:4, on the M page only. */
  lemma McliccfgReadsBack(m: Map, c: Cluster, page: Two, v: Byte)
    requires MapOf(m, c) && IsPage(page) && c.g.cfg.perMode
    ensures var a := ConfigAddress(m, page, 0);
            Legal(m, Access(page, a, v)) &&
            var r := Store(m, c, Access(page, a, v));
            if page == MODE_M
            then Load(m, r, page, a) ==
                 NewNlbits(c.g.cfg, c.g.nlbits[MODE_M], v % 16) + 16 * NewNmbits(c.g.cfg, v / 16 % 4)
            else r == c && Load(m, c, page, a) == 0
  {
    ConfigDecodes(m, page, 0);
    NlbitsSet(c.g, MODE_M, v % 16);
  }

  /** scliccfg: nlbits in bits 3:0, on the M and S pages where there is Supervisor mode. */
  lemma ScliccfgReadsBack(m: Map, c: Cluster, page: Two, v: Byte)
    requires MapOf(m, c) && IsPage(page) && c.g.cfg.perMode
    ensures var a := ConfigAddress(m, page, 2);
            Legal(m, Access(page, a, v)) &&
            var r := Store(m, c, Access(page, a, v));
            if page != MODE_U && c.g.cfg.ssclic
            then Load(m, r, page, a) == NewNlbits(c.g.cfg, c.g.nlbits[MODE_S], v % 16)
            else r == c && Load(m, c, page, a) == 0
  {
    ConfigDecodes(m, page, 2);
    NlbitsSet(c.g, MODE_S, v % 16);
  }

  /** ucliccfg: nlbits in bits 3:0, on every page where there are User interrupts. */
  lemma UcliccfgReadsBack(m: Map, c: Cluster, page: Two, v: Byte)
    requires MapOf(m, c) && IsPage(page) && c.g.cfg.perMode
    ensures var a := ConfigAddress(m, page, 3);
            Legal(m, Access(page, a, v)) &&
            var r := Store(m, c, Access(page, a, v));
            if c.g.cfg.suclic
            then Load(m, r, page, a) == NewNlbits(c.g.cfg, c.g.nlbits[MODE_U], v % 16)
            else r == c && Load(m, c, page, a) == 0
  {
    ConfigDecodes(m, page, 3);
    NlbitsSet(c.g, MODE_U, v % 16);
  }

  /** The single cliccfg: nvbits in bit 0, nlbits in bits 4:1 and nmbits in bits 6:5; its nlbits serve all modes. */
  lemma CliccfgReadsBack(m: Map, c: Cluster, v: Byte)
    requires MapOf(m, c) && !c.g.cfg.perMode
    ensures var a := ConfigAddress(m, MODE_M, 0);
            Legal(m, Access(MODE_M, a, v)) &&
            var r := Store(m, c, Access(MODE_M, a, v));
            var n := NewNlbits(c.g.cfg, c.g.nlbits[MODE_M], v / 2 % 16);
            Load(m, r, MODE_M, a) ==
              (if c.g.cfg.nvbits && c.g.cfg.selHVec then 1 else 0) + 2 * n + 32 * NewNmbits(c.g.cfg, v / 32 % 4) &&
            r.g.nlbits[MODE_U] == r.g.nlbits[MODE_S] == r.g.nlbits[MODE_M] == n
  {
    ConfigDecodes(m, MODE_M, 0);
    NlbitsSet(c.g, MODE_M, v / 2 % 16);
  }

  /** No other byte of a configuration page holds anything. */
  lemma ConfigElsewhere(m: Map, c: Cluster, page: Two, k: nat, v: Byte)
    requires MapOf(m, c) && IsPage(page) && m.HasConfigPage(page) && k < 4096
    requires k / 4 != 1 && (k != 0 && (c.g.cfg.perMode ==> k != 2 && k != 3))
    ensures var a := ConfigAddress(m, page, k);
            Legal(m, Access(page, a, v)) && Store(m, c, Access(page, a, v)) == c && Load(m, c, page, a) == 0
  {
    ConfigDecodes(m, page, k);
  }

  lemma InfoByte(m: Map, c: Cluster, v: Byte, k: nat)
    requires MapOf(m, c) && k < 4
    ensures var a := ConfigAddress(m, MODE_M, 4) + k;
            m.InRegion(MODE_M, a) && Store(m, c, Access(MODE_M, a, v)) == c &&
            Load(m, c, MODE_M, a) == if c.g.cfg.infoAbsent then 0 else ByteOf(c.g.cfg.clicinfo, k)
  {
    ConfigDecodes(m, MODE_M, 4 + k);
  }

  function ByteOf(x: nat, k: nat): (b: Byte)
    requires k < 4
  {
    x / [1, 0x100, 0x1_0000, 0x100_0000][k] % 256
  }

  /** The four bytes from offset four on the M page make up clicinfo; without it they are zero. None can be written. */
  lemma InfoBytes(m: Map, c: Cluster)
    requires MapOf(m, c)
    ensures var a := ConfigAddress(m, MODE_M, 4);
            m.InRegion(MODE_M, a) && m.InRegion(MODE_M, a + 1) && m.InRegion(MODE_M, a + 2) &&
            m.InRegion(MODE_M, a + 3) &&
            Load(m, c, MODE_M, a) + 0x100 * Load(m, c, MODE_M, a + 1) + 0x1_0000 * Load(m, c, MODE_M, a + 2) +
              0x100_0000 * Load(m, c, MODE_M, a + 3) ==
            if c.g.cfg.infoAbsent then 0 else c.g.cfg.clicinfo % 0x1_0000_0000
  {
    InfoByte(m, c, 0, 0);
    InfoByte(m, c, 0, 1);
    InfoByte(m, c, 0, 2);
    InfoByte(m, c, 0, 3);
    FourBytes(c.g.cfg.clicinfo);
  }

  lemma TwoBytes(x: nat)
    ensures x % 0x1_0000 == x % 256 + 0x100 * (x / 0x100 % 256) && x / 0x1_0000 == x / 0x100 / 0x100
  {
  }

  lemma HalfWords(x: nat)
    ensures x % 0x1_0000_0000 == x % 0x1_0000 + 0x1_0000 * (x / 0x1_0000 % 0x1_0000)
    ensures x / 0x1_0000 / 0x100 == x / 0x100_0000
  {
  }

  lemma FourBytes(x: nat)
    ensures ByteOf(x, 0) + 0x100 * ByteOf(x, 1) + 0x1_0000 * ByteOf(x, 2) + 0x100_0000 * ByteOf(x, 3) ==
            x % 0x1_0000_0000
  {
    TwoBytes(x);
    TwoBytes(x / 0x1_0000);
    HalfWords(x);
  }

  /** Bases that are given stay, and those that are not follow the region before. */
  lemma MappedBases(baseM: nat, sclicbase: nat, uclicbase: nat, n: nat, perMode: bool)
    ensures var m := MapDomain(baseM, sclicbase, uclicbase, n, perMode);
            var pages := if perMode then 1 + 4 * n else 4 * n;
            m.Base(MODE_M) == baseM &&
            m.Base(MODE_S) == (if sclicbase != 0 then sclicbase else baseM + 4096 * (1 + 4 * n)) &&
            m.Base(MODE_U) == (if uclicbase != 0 then uclicbase else m.Base(MODE_S) + 4096 * pages)
  {
  }

  /** A new interrupt: not pending, disabled, of M mode, with clicintctl bits clear and the trigger it is fixed to. */
  lemma InitialBytes(cfg: Config, posedge: set<nat>, poslevel: set<nat>, absent: set<nat>, userInt: bool,
                     i: nat, k: nat)
    requires cfg.Valid() && i < cfg.intNum && k < 8
    ensures var h := ClicCoherence.InitHart(cfg, posedge, poslevel, absent, userInt);
            var s := h.ints[i];
            !s.ip && !s.ie && !s.attr.shv && s.attr.mode == 3 && s.attr.trig == (if i in posedge then 1 else 0) &&
            Bit(s.ctl, k) == (k < 8 - cfg.ctlBits) && !h.ext[i] && !h.ipe[i] &&
            h.trigFixed[i] == (i in posedge || i in poslevel)
  {
    FillLowBit(0, 8 - cfg.ctlBits, k);
    ZeroHasNoBit(k);
  }
}
