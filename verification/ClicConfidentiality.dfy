/** Software confined to the S or U pages cannot learn what belongs to a higher mode. */
module ClicConfidentiality {
  import opened Clic
  import opened ClicMap
  import opened ClicIsolation
  import opened ClicCoherence

  /** Two harts agree on the interrupts at or below p, and on which these are. */
  ghost predicate HartsAgree(g: Global, h: Hart, g': Global, h': Hart, p: Two) {
    h.Valid(|h.ints|) && h'.Valid(|h.ints|) && h.absent == h'.absent && h.userInt == h'.userInt &&
    forall i :: 0 <= i < |h.ints| ==>
      if ModeOf(g, h, i) <= p
      then h.ints[i] == h'.ints[i] && h.ext[i] == h'.ext[i] && h.ipe[i] == h'.ipe[i] &&
           h.trigFixed[i] == h'.trigFixed[i]
      else ModeOf(g', h', i) > p
  }

  ghost predicate GlobalsAgree(g: Global, g': Global, p: Two) {
    g.Valid() && g'.Valid() && g.cfg == g'.cfg && g.nmbits == g'.nmbits &&
    forall q :: 0 <= q <= p ==> g.nlbits[q] == g'.nlbits[q]
  }

  /** Two clusters agree on everything at or below p. */
  ghost predicate Agree(c: Cluster, c': Cluster, p: Two) {
    c.Valid() && c'.Valid() && GlobalsAgree(c.g, c'.g, p) && |c.harts| == |c'.harts| &&
    forall k :: 0 <= k < |c.harts| ==> HartsAgree(c.g, c.harts[k], c'.g, c'.harts[k], p)
  }

  // ----- one access -----

  lemma ConfigReadsSame(g: Global, g': Global, d: Desc, p: Two)
    requires GlobalsAgree(g, g', p) && d.mode <= p < MODE_M && g.cfg.perMode
    ensures ReadConfig(g, d) == ReadConfig(g', d)
  {
  }

  lemma FieldReadsSame(g: Global, h: Hart, g': Global, h': Hart, d: Desc, p: Two)
    requires GlobalsAgree(g, g', p) && HartsAgree(g, h, g', h', p) && d.mode <= p && d.field != ClicConfig
    ensures Accessible(g, h, d.index, d.mode) == Accessible(g', h', d.index, d.mode)
    ensures Accessible(g, h, d.index, d.mode) ==> FieldByte(h, d.index, d.field) == FieldByte(h', d.index, d.field)
  {
  }

  lemma LoadsSame(m: Map, c: Cluster, c': Cluster, page: Two, address: nat, p: Two)
    requires MapOf(m, c) && MapOf(m, c') && Agree(c, c', p) && IsPage(page) && m.InRegion(page, address)
    requires page <= p < MODE_M
    ensures Load(m, c, page, address) == Load(m, c', page, address)
  {
    DecodeThenEncode(m, page, address);
    var d := Decode(m, page, address);
    if d.field == ClicConfig {
      ConfigReadsSame(c.g, c'.g, d, p);
    } else {
      assert HartsAgree(c.g, c.harts[d.hart], c'.g, c'.harts[d.hart], p);
      FieldReadsSame(c.g, c.harts[d.hart], c'.g, c'.harts[d.hart], d, p);
    }
  }

  lemma ConfigWriteAgrees(g: Global, g': Global, d: Desc, v: Byte, p: Two)
    requires GlobalsAgree(g, g', p) && d.mode <= p < MODE_M && g.cfg.perMode
    ensures GlobalsAgree(WriteConfig(g, d, v), WriteConfig(g', d, v), p)
    ensures WriteConfig(g, d, v).nmbits == g.nmbits
  {
  }

  /** Replacing one interrupt at or below p by the same thing in both harts. */
  lemma SameUpdateAgrees(g: Global, h: Hart, g': Global, h': Hart, i: nat, s: IntState, b: bool, p: Two)
    requires HartsAgree(g, h, g', h', p) && i < |h.ints| && ModeOf(g, h, i) <= p && EffMode(g, s.attr.mode) <= p
    ensures HartsAgree(g, h.(ints := h.ints[i := s], ipe := h.ipe[i := b]),
                       g', h'.(ints := h'.ints[i := s], ipe := h'.ipe[i := b]), p)
  {
  }

  /** What a field write makes of an accessible interrupt. */
  function NewState(g: Global, h: Hart, d: Desc, v: Byte): (s: IntState)
    requires g.Valid() && d.field != ClicConfig && d.index < |h.ints| && d.index < |h.trigFixed|
  {
    var s := h.ints[d.index];
    match d.field
    case ClicIntIp => if g.cfg.mayPendLevel || s.attr.Edge() then s.(ip := v % 2 == 1) else s
    case ClicIntIe => s.(ie := v % 2 == 1)
    case ClicIntAttr => s.(attr := LegalAttr(g.cfg, h, d.index, v, d.mode))
    case ClicIntCtl => s.(ctl := FillLow(v, 8 - g.cfg.ctlBits))
  }

  function NewIpe(h: Hart, d: Desc, v: Byte): (b: bool)
    requires d.index < |h.ints| && d.index < |h.ext| && d.index < |h.ipe|
  {
    if d.field == ClicIntIp then h.ints[d.index].ie && v % 2 == 1
    else if d.field == ClicIntIe then Pending(h, d.index) && v % 2 == 1
    else h.ipe[d.index]
  }

  lemma FieldWriteIs(g: Global, h: Hart, d: Desc, v: Byte)
    requires g.Valid() && h.Valid(g.cfg.intNum) && d.field != ClicConfig && Accessible(g, h, d.index, d.mode)
    ensures WriteField(g, h, d, v) ==
            h.(ints := h.ints[d.index := NewState(g, h, d, v)], ipe := h.ipe[d.index := NewIpe(h, d, v)])
  {
    var i := d.index;
    assert h.ints[i := h.ints[i]] == h.ints && h.ipe[i := h.ipe[i]] == h.ipe;
  }

  lemma FieldWriteAgrees(g: Global, h: Hart, g': Global, h': Hart, d: Desc, v: Byte, p: Two)
    requires GlobalsAgree(g, g', p) && HartsAgree(g, h, g', h', p) && h.Valid(g.cfg.intNum)
    requires d.mode <= p && IsPage(d.mode) && d.field != ClicConfig
    ensures HartsAgree(g, WriteField(g, h, d, v), g', WriteField(g', h', d, v), p)
  {
    FieldReadsSame(g, h, g', h', d, p);
    if Accessible(g, h, d.index, d.mode) {
      FieldWriteIs(g, h, d, v);
      FieldWriteIs(g', h', d, v);
      AttrStaysInReach(g, h.userInt, h.ints[d.index].attr.mode, v / 64, d.mode);
      SameUpdateAgrees(g, h, g', h', d.index, NewState(g, h, d, v), NewIpe(h, d, v), p);
    }
  }

  lemma ModesOnly(g: Global, h: Hart, g': Global, h': Hart, e: Global, e': Global, p: Two)
    requires HartsAgree(g, h, g', h', p)
    requires e.nmbits == g.nmbits && e'.nmbits == g'.nmbits && e.cfg == g.cfg && e'.cfg == g'.cfg
    ensures HartsAgree(e, h, e', h', p)
  {
    forall i | 0 <= i < |h.ints|
      ensures ModeOf(e, h, i) == ModeOf(g, h, i) && ModeOf(e', h', i) == ModeOf(g', h', i)
    {
    }
  }

  lemma StoresAgree(m: Map, c: Cluster, c': Cluster, a: Access, p: Two)
    requires MapOf(m, c) && MapOf(m, c') && Agree(c, c', p) && Legal(m, a) && a.page <= p < MODE_M
    ensures Agree(Store(m, c, a), Store(m, c', a), p)
  {
    DecodeThenEncode(m, a.page, a.address);
    var d := Decode(m, a.page, a.address);
    var r, r' := Store(m, c, a), Store(m, c', a);
    if d.field == ClicConfig {
      ConfigWriteAgrees(c.g, c'.g, d, a.value, p);
      forall k | 0 <= k < |c.harts| ensures HartsAgree(r.g, r.harts[k], r'.g, r'.harts[k], p) {
        ModesOnly(c.g, c.harts[k], c'.g, c'.harts[k], r.g, r'.g, p);
      }
    } else {
      FieldWriteAgrees(c.g, c.harts[d.hart], c'.g, c'.harts[d.hart], d, a.value, p);
    }
  }

  // ----- runs -----

  datatype Request = Get(page: Two, address: nat) | Put(a: Access)

  predicate LegalRequest(m: Map, q: Request, p: Two) {
    match q
    case Get(page, address) => IsPage(page) && m.InRegion(page, address) && page <= p
    case Put(a) => Legal(m, a) && a.page <= p
  }

  predicate LegalRequests(m: Map, run: seq<Request>, p: Two) {
    forall j :: 0 <= j < |run| ==> LegalRequest(m, run[j], p)
  }

  /** The bytes that a run of reads and writes returns. */
  function Replies(m: Map, c: Cluster, run: seq<Request>, p: Two): (r: seq<Byte>)
    requires MapOf(m, c) && LegalRequests(m, run, p)
    decreases |run|
  {
    if run == [] then [] else
    assert LegalRequest(m, run[0], p);
    match run[0]
    case Get(page, address) => [Load(m, c, page, address)] + Replies(m, c, run[1..], p)
    case Put(a) => Replies(m, Store(m, c, a), run[1..], p)
  }

  /** Clusters that agree at or below p give the same replies to every run through pages of mode at most p. */
  lemma {:induction false} RunConfidential(m: Map, c: Cluster, c': Cluster, run: seq<Request>, p: Two)
    requires MapOf(m, c) && MapOf(m, c') && Agree(c, c', p) && LegalRequests(m, run, p) && p < MODE_M
    ensures Replies(m, c, run, p) == Replies(m, c', run, p)
    decreases |run|
  {
    if run != [] {
      assert LegalRequest(m, run[0], p);
      match run[0]
      case Get(page, address) =>
        LoadsSame(m, c, c', page, address, p);
        RunConfidential(m, c, c', run[1..], p);
      case Put(a) =>
        StoresAgree(m, c, c', a, p);
        RunConfidential(m, Store(m, c, a), Store(m, c', a), run[1..], p);
    }
  }

  /** An input change or acknowledge of an interrupt above p. */
  predicate Above(c: Cluster, e: Event, p: Two)
    requires c.Valid()
  {
    !e.Sw? && LegalEvent(c, e) && ModeOf(c.g, c.harts[e.hart], e.index) > p
  }

  lemma AgreeWithSelf(c: Cluster, p: Two)
    requires c.Valid()
    ensures Agree(c, c, p)
  {
  }

  /** Whatever happens to interrupts above p does not show in any later reply. */
  lemma HigherEventsDoNotShow(m: Map, c: Cluster, e: Event, run: seq<Request>, p: Two)
    requires MapOf(m, c) && Above(c, e, p) && LegalRequests(m, run, p) && p < MODE_M
    ensures Replies(m, Step(c, e), run, p) == Replies(m, c, run, p)
  {
    AgreeWithSelf(c, p);
    assert Agree(c, Step(c, e), p);
    RunConfidential(m, c, Step(c, e), run, p);
  }
}
