/** The memory map of a version 0.9 or later CLIC. */
module ClicMap {
  import opened Clic

  const PAGE: nat := 4096
  const TWO32: nat := 0x1_0000_0000

  /** Region bases after mapping, and whether the S and U bases were derived. */
  datatype Map = Map(baseM: nat, baseS: nat, baseU: nat, impS: bool, impU: bool, numHarts: nat, perMode: bool) {
    function SizeM(): nat { (1 + 4 * numHarts) * PAGE }
    function SizeSU(): nat { ((if perMode then 1 else 0) + 4 * numHarts) * PAGE }

    function Base(page: Two): nat {
      if page == MODE_M then baseM else if page == MODE_S then baseS else baseU
    }
    function Size(page: Two): nat { if page == MODE_M then SizeM() else SizeSU() }

    /** Is there a configuration page in front of the interrupt pages? */
    predicate HasConfigPage(page: Two) { page == MODE_M || perMode }

    predicate InRegion(page: Two, address: nat) {
      Base(page) <= address < Base(page) + Size(page)
    }
    /** Region sizes are 32-bit quantities. */
    predicate Fits() { SizeM() < TWO32 }
  }

  predicate IsPage(page: Two) { page != MODE_H }

  /** Bases given as zero are derived: S after M, U after S. */
  function MapDomain(baseM: nat, sclicbase: nat, uclicbase: nat, numHarts: nat, perMode: bool): (r: Map) {
    var m0 := Map(baseM, 0, 0, false, false, numHarts, perMode);
    var baseS := if sclicbase == 0 then baseM + m0.SizeM() else sclicbase;
    var baseU := if uclicbase == 0 then baseS + m0.SizeSU() else uclicbase;
    Map(baseM, baseS, baseU, sclicbase == 0, uclicbase == 0, numHarts, perMode)
  }

  function FieldAt(k: nat): (r: Field)
    requires k < 4
  {
    [ClicIntIp, ClicIntIe, ClicIntAttr, ClicIntCtl][k]
  }

  function FieldOffset(f: Field): (r: nat)
    requires f != ClicConfig
    ensures r < 4 && FieldAt(r) == f
  {
    match f
    case ClicIntIp => 0
    case ClicIntIe => 1
    case ClicIntAttr => 2
    case ClicIntCtl => 3
  }

  /** C subtraction of 64-bit addresses into an unsigned 32-bit offset. */
  function Offset32(address: nat, base: nat): (r: nat) {
    (address - base) % TWO32
  }

  function CtrlDesc(page: Two, raw: nat, off: nat): (r: Desc) {
    Desc(-1, raw, off, page, ClicConfig)
  }

  function IntDesc(page: Two, raw: nat, off: nat): (r: Desc) {
    Desc(off / PAGE / 4, raw, off / 4 % 4096, page, FieldAt(off % 4))
  }

  /** The access that a byte address within a region stands for. */
  function Decode(m: Map, page: Two, address: nat): (d: Desc) {
    var off := Offset32(address, m.Base(page));
    var derived := (page == MODE_S && m.impS) || (page == MODE_U && m.impU);
    var raw := if derived then Offset32(address, m.baseM) else off;
    if !m.HasConfigPage(page) then IntDesc(page, raw, off)
    else if off < PAGE then CtrlDesc(page, raw, off)
    else IntDesc(page, raw, off - PAGE)
  }

  /** Address of byte k of the configuration page. */
  function ConfigAddress(m: Map, page: Two, k: nat): (r: nat) {
    m.Base(page) + k
  }

  /** Address of a control byte of an interrupt. */
  function IntAddress(m: Map, page: Two, hart: nat, index: nat, f: Field): (r: nat)
    requires f != ClicConfig
  {
    m.Base(page) + (if m.HasConfigPage(page) then PAGE else 0) + 4 * PAGE * hart + 4 * index + FieldOffset(f)
  }

  /** Every byte of a region decodes to exactly one register byte, whose address it is. */
  lemma DecodeThenEncode(m: Map, page: Two, address: nat)
    requires m.Fits() && IsPage(page) && m.InRegion(page, address)
    ensures var d := Decode(m, page, address);
            d.mode == page &&
            (if d.field == ClicConfig
             then m.HasConfigPage(page) && d.index < PAGE && ConfigAddress(m, page, d.index) == address
             else 0 <= d.hart < m.numHarts && d.index < 4096 &&
                  IntAddress(m, page, d.hart, d.index, d.field) == address)
  {
    var off := address - m.Base(page);
    assert m.SizeSU() <= m.SizeM();
    assert Offset32(address, m.Base(page)) == off;
    if !(m.HasConfigPage(page) && off < PAGE) {
      var o := if m.HasConfigPage(page) then off - PAGE else off;
      assert o / 4 == 4096 * (o / PAGE / 4) + o / 4 % 4096;
    }
  }

  /** Splitting an offset into hart, interrupt and field undoes composing it. */
  lemma SplitOffset(hart: nat, index: nat, k: nat)
    requires index < 4096 && k < 4
    ensures var o := 4 * PAGE * hart + 4 * index + k; o / PAGE / 4 == hart && o / 4 % 4096 == index && o % 4 == k
  {
  }

  lemma IntDecodes(m: Map, page: Two, hart: nat, index: nat, f: Field)
    requires m.Fits() && IsPage(page) && index < 4096 && f != ClicConfig && hart < m.numHarts
    ensures var a := IntAddress(m, page, hart, index, f);
            var d := Decode(m, page, a);
            m.InRegion(page, a) && d.hart == hart && d.index == index && d.field == f && d.mode == page
  {
    assert m.SizeSU() <= m.SizeM();
    var a := IntAddress(m, page, hart, index, f);
    assert 4 * PAGE * hart + 4 * index + FieldOffset(f) < 4 * PAGE * m.numHarts;
    assert Offset32(a, m.Base(page)) == a - m.Base(page);
    SplitOffset(hart, index, FieldOffset(f));
  }

  /** Every (hart, interrupt, field) triple and configuration byte has an address in the region that decodes to it. */
  lemma EncodeThenDecode(m: Map, page: Two, hart: nat, index: nat, f: Field)
    requires m.Fits() && IsPage(page) && index < 4096
    ensures f != ClicConfig && hart < m.numHarts ==>
              var a := IntAddress(m, page, hart, index, f);
              var d := Decode(m, page, a);
              m.InRegion(page, a) && d.hart == hart && d.index == index && d.field == f && d.mode == page
    ensures f == ClicConfig && m.HasConfigPage(page) ==>
              var a := ConfigAddress(m, page, index);
              var d := Decode(m, page, a);
              m.InRegion(page, a) && d.index == index && d.field == ClicConfig && d.mode == page
  {
    if f != ClicConfig && hart < m.numHarts { IntDecodes(m, page, hart, index, f); }
  }

  /** Derived S and U bases keep the three regions apart. */
  lemma DerivedRegionsAreDisjoint(baseM: nat, numHarts: nat, perMode: bool, p: Two, q: Two, a: nat)
    requires IsPage(p) && IsPage(q) && p != q
    requires MapDomain(baseM, 0, 0, numHarts, perMode).InRegion(p, a)
    ensures !MapDomain(baseM, 0, 0, numHarts, perMode).InRegion(q, a)
  {
  }
}
