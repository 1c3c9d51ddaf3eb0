/** What software reads back from the CLIC registers. */
module ClicRegisters {
  import opened Clic
  import opened ClicMap
  import opened ClicIsolation

  /** The byte a write of v to an accessible control byte leaves there. */
  function Stored(c: Cluster, d: Desc, v: Byte): (r: Byte)
    requires c.Valid() && ValidDesc(c, d) && d.field != ClicConfig && d.index < c.g.cfg.intNum
  {
    var h, i := c.harts[d.hart], d.index;
    match d.field
    case ClicIntIp =>
      var latched := if Edge(h, i) || c.g.cfg.mayPendLevel then v % 2 == 1 else h.ints[i].ip;
      if latched || (!Edge(h, i) && h.ext[i]) then 1 else 0
    case ClicIntIe => v % 2
    case ClicIntAttr => LegalAttr(c.g.cfg, h, i, v, d.mode).Bits()
    case ClicIntCtl => FillLow(v, 8 - c.g.cfg.ctlBits)
  }

  /**
   * An accessible byte reads back as its legalised value through the same page; an inaccessible one reads zero and
   * ignores writes.
   */
  lemma ReadBack(c: Cluster, d: Desc, v: Byte)
    requires c.Valid() && ValidDesc(c, d) && d.field != ClicConfig && IsPage(d.mode)
    ensures if Accessible(c.g, c.harts[d.hart], d.index, d.mode)
            then ReadByte(WriteByte(c, d, v), d) == Stored(c, d, v)
            else WriteByte(c, d, v) == c && ReadByte(c, d) == 0
  {
    var h := c.harts[d.hart];
    if Accessible(c.g, h, d.index, d.mode) {
      if d.field == ClicIntAttr {
        AttrStaysInReach(c.g, h.userInt, h.ints[d.index].attr.mode, v / 64, d.mode);
      }
    } else {
      assert WriteByte(c, d, v).harts == c.harts;
    }
  }

  /** A write to one interrupt's bytes is not visible in any byte of another interrupt, on any page of any hart. */
  lemma OthersUnchanged(c: Cluster, d: Desc, v: Byte, d': Desc)
    requires c.Valid() && ValidDesc(c, d) && ValidDesc(c, d') && d.field != ClicConfig && d'.field != ClicConfig
    requires d.hart != d'.hart || d.index != d'.index
    ensures ReadByte(WriteByte(c, d, v), d') == ReadByte(c, d')
  {
  }

  /** Legalisation of clicintattr is a projection: writing back what is stored changes nothing. */
  lemma AttrIsProjection(cfg: Config, h: Hart, i: nat, v: Byte, page: Two)
    requires i < |h.ints| && i < |h.trigFixed| && IsPage(page)
    ensures var a := LegalAttr(cfg, h, i, v, page);
            LegalAttr(cfg, h, i, a.Bits(), page) == a
  {
    var a := LegalAttr(cfg, h, i, v, page);
    assert a.Bits() % 2 == (if a.shv then 1 else 0) && a.Bits() / 2 % 4 == a.trig && a.Bits() / 64 == a.mode;
  }

  lemma ConfigFields(nv: nat, nl: nat, nm: nat)
    requires nv < 2 && nl < 16 && nm < 4
    ensures (nv + 2 * nl + 32 * nm) / 2 % 16 == nl && (nv + 2 * nl + 32 * nm) / 32 % 4 == nm
    ensures (nl + 16 * nm) % 16 == nl && (nl + 16 * nm) / 16 % 4 == nm
  {
  }

  datatype Accessed = NoMode | ForMode(mode: Two)

  /** The mode whose nlbits a configuration byte holds. */
  function NlbitsOf(g: Global, d: Desc): (a: Accessed) {
    if !g.cfg.perMode then (if d.index == 0 then ForMode(MODE_M) else NoMode)
    else if d.index == 0 && d.mode >= MODE_M then ForMode(MODE_M)
    else if d.index == 2 && d.mode >= MODE_S && g.cfg.ssclic then ForMode(MODE_S)
    else if d.index == 3 && g.cfg.suclic then ForMode(MODE_U)
    else NoMode
  }

  /** nlbits are shared by all modes when there is a single cliccfg. */
  predicate SharedNlbits(g: Global) {
    g.Valid() && (!g.cfg.perMode ==> g.nlbits[MODE_U] == g.nlbits[MODE_S] == g.nlbits[MODE_M])
  }

  /**
   * Reading a configuration byte and writing it back leaves the configuration as it was if and
   * only if the nlbits it holds are within CLICCFGLBITS. A single cliccfg is on the M page only.
   */
  lemma ConfigWriteBack(g: Global, d: Desc)
    requires SharedNlbits(g) && d.field == ClicConfig
    requires g.cfg.perMode || d.mode == MODE_M
    ensures WriteConfig(g, d, ReadConfig(g, d)) == g <==>
            match NlbitsOf(g, d) case NoMode => true case ForMode(m) => g.nlbits[m] <= g.cfg.cfgLBits
  {
    ConfigFields(if g.cfg.nvbits && g.cfg.selHVec then 1 else 0, g.nlbits[MODE_M], g.nmbits);
    if !g.cfg.perMode && d.index == 0 {
      CliccfgWriteBack(g, ReadConfig(g, d));
    } else if g.cfg.perMode && d.index == 0 && d.mode >= MODE_M {
      McliccfgWriteBack(g, ReadConfig(g, d));
    } else if g.cfg.perMode && d.index == 2 && d.mode >= MODE_S && g.cfg.ssclic {
      SetNlbitsSame(g, MODE_S);
    } else if g.cfg.perMode && d.index == 3 && g.cfg.suclic {
      SetNlbitsSame(g, MODE_U);
    }
  }

  lemma CliccfgWriteBack(g: Global, v: Byte)
    requires SharedNlbits(g) && !g.cfg.perMode && v / 2 % 16 == g.nlbits[MODE_M] && v / 32 % 4 == g.nmbits
    ensures WriteCliccfg(g, v) == g <==> g.nlbits[MODE_M] <= g.cfg.cfgLBits
  {
    SetNlbitsSame(g, MODE_M);
    if g.nlbits[MODE_M] <= g.cfg.cfgLBits {
      assert g.nlbits[MODE_U := g.nlbits[MODE_M]][MODE_S := g.nlbits[MODE_M]] == g.nlbits;
    } else {
      assert WriteCliccfg(g, v).nlbits[MODE_M] == g.cfg.cfgLBits;
    }
  }

  lemma McliccfgWriteBack(g: Global, v: Byte)
    requires g.Valid() && v % 16 == g.nlbits[MODE_M] && v / 16 % 4 == g.nmbits
    ensures WriteMcliccfg(g, v) == g <==> g.nlbits[MODE_M] <= g.cfg.cfgLBits
  {
    SetNlbitsSame(g, MODE_M);
  }

  lemma SetNlbitsSame(g: Global, m: Two)
    requires g.Valid()
    ensures SetNlbits(g, m, g.nlbits[m]) == g <==> g.nlbits[m] <= g.cfg.cfgLBits
    ensures g.nlbits[m] > g.cfg.cfgLBits ==> SetNlbits(g, m, g.nlbits[m]).nlbits[m] == g.cfg.cfgLBits
  {
    if g.nlbits[m] <= g.cfg.cfgLBits { assert g.nlbits[m := g.nlbits[m]] == g.nlbits; }
  }

  /** nlbits values are within CLICCFGLBITS, and shared by all modes when there is a single cliccfg. */
  predicate ConfigReachable(g: Global) {
    SharedNlbits(g) && forall m :: 0 <= m < 4 ==> g.nlbits[m] <= g.cfg.cfgLBits
  }

  /** Every configuration write keeps nlbits shared, and within CLICCFGLBITS where they are so already. */
  lemma ConfigStaysReachable(c: Cluster, d: Desc, v: Byte)
    requires c.Valid() && ValidDesc(c, d) && SharedNlbits(c.g) && d.field == ClicConfig
    ensures SharedNlbits(WriteByte(c, d, v).g)
    ensures ConfigReachable(c.g) ==> ConfigReachable(WriteByte(c, d, v).g)
  {
  }

  /** The configuration a root starts with: the smallest legal nlbits in every mode. */
  ghost predicate Starting(g: Global) {
    g.Valid() && g.nmbits == 0 && g.nlbits[0] in g.cfg.nlbitsValid &&
    (forall n :: n in g.cfg.nlbitsValid ==> g.nlbits[0] <= n) &&
    g.nlbits == [g.nlbits[0], g.nlbits[0], g.nlbits[0], g.nlbits[0]]
  }

  /** It is within CLICCFGLBITS if and only if some legal nlbits value is. */
  lemma StartReachable(g: Global)
    requires Starting(g)
    ensures SharedNlbits(g)
    ensures ConfigReachable(g) <==> exists n :: n in g.cfg.nlbitsValid && n <= g.cfg.cfgLBits
  {
    if exists n :: n in g.cfg.nlbitsValid && n <= g.cfg.cfgLBits {
      var n :| n in g.cfg.nlbitsValid && n <= g.cfg.cfgLBits;
      assert g.nlbits[0] <= n;
    }
  }

  /**
   * With eight as the only legal value and CLICCFGLBITS two, nlbits start at eight, and writing them back makes them
   * two.
   */
  lemma StartNotWrittenBack()
    ensures var cfg := Config(1, 8, 0, 2, {8}, false, true, false, false, true, 0, true, true);
            var g := Global(cfg, [8, 8, 8, 8], 0);
            var d := Desc(-1, 0, 0, MODE_M, ClicConfig);
            Starting(g) && WriteConfig(g, d, ReadConfig(g, d)).nlbits[MODE_M] == 2
  {
  }
}
