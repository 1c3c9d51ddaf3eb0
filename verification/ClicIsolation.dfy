/** Software confined to the S or U pages cannot touch what belongs to a higher mode. */
module ClicIsolation {
  import opened Clic
  import opened ClicMap
  import opened ClicSelection

  /** One byte written at an address of the region of the given page. */
  datatype Access = Access(page: Two, address: nat, value: Byte)

  predicate MapOf(m: Map, c: Cluster) {
    m.Fits() && c.Valid() && m.numHarts == |c.harts| && m.perMode == c.g.cfg.perMode
  }

  predicate Legal(m: Map, a: Access) {
    IsPage(a.page) && m.InRegion(a.page, a.address)
  }

  function Store(m: Map, c: Cluster, a: Access): (r: Cluster)
    requires MapOf(m, c) && Legal(m, a)
    ensures MapOf(m, r)
  {
    DecodeThenEncode(m, a.page, a.address);
    WriteByte(c, Decode(m, a.page, a.address), a.value)
  }

  /** The byte read at an address of a region. */
  function Load(m: Map, c: Cluster, page: Two, address: nat): (v: Byte)
    requires MapOf(m, c) && IsPage(page) && m.InRegion(page, address)
  {
    DecodeThenEncode(m, page, address);
    ReadByte(c, Decode(m, page, address))
  }

  /** A run of byte writes. */
  function Stores(m: Map, c: Cluster, run: seq<Access>): (r: Cluster)
    requires MapOf(m, c) && forall j :: 0 <= j < |run| ==> Legal(m, run[j])
    ensures MapOf(m, r)
    decreases |run|
  {
    if run == [] then c else Stores(m, Store(m, c, run[0]), run[1..])
  }

  /** Every write of the run goes through a page of mode at most p. */
  predicate LegalRun(m: Map, run: seq<Access>, p: Two) {
    forall j :: 0 <= j < |run| ==> Legal(m, run[j]) && run[j].page <= p
  }

  /** Nothing of hart h that belongs above p differs in h', and nothing at or below p has risen. */
  ghost predicate HartUntouched(g: Global, h: Hart, h': Hart, p: Two) {
    |h.ints| == |h'.ints| && |h.ipe| == |h'.ipe| == |h.ints| && h'.ext == h.ext &&
    (forall i :: 0 <= i < |h.ints| ==>
      if ModeOf(g, h, i) > p then h'.ints[i] == h.ints[i] && h'.ipe[i] == h.ipe[i]
      else ModeOf(g, h', i) <= p)
  }

  ghost predicate GlobalUntouched(g: Global, g': Global, p: Two) {
    g.cfg == g'.cfg && g.nmbits == g'.nmbits && |g.nlbits| == |g'.nlbits| == 4 &&
    forall q :: p < q < 4 ==> g'.nlbits[q] == g.nlbits[q]
  }

  ghost predicate Untouched(c: Cluster, c': Cluster, p: Two) {
    GlobalUntouched(c.g, c'.g, p) && |c.harts| == |c'.harts| &&
    forall k :: 0 <= k < |c.harts| ==> HartUntouched(c.g, c.harts[k], c'.harts[k], p)
  }

  /** A clicintattr write through a page keeps the interrupt within the reach of that page. */
  lemma AttrStaysInReach(g: Global, userInt: bool, was: Two, m: Two, page: Two)
    requires g.Valid() && IsPage(page) && EffMode(g, was) <= page
    ensures EffMode(g, LegalMode(g.cfg, userInt, m, page)) <= page
  {
  }

  lemma FieldWriteIsolated(g: Global, h: Hart, d: Desc, v: Byte, p: Two)
    requires g.Valid() && h.Valid(g.cfg.intNum) && d.field != ClicConfig && IsPage(d.mode) && d.mode <= p
    ensures HartUntouched(g, h, WriteField(g, h, d, v), p)
  {
    if Accessible(g, h, d.index, d.mode) && d.field == ClicIntAttr {
      AttrStaysInReach(g, h.userInt, h.ints[d.index].attr.mode, v / 64, d.mode);
    }
  }

  lemma StoreIsolated(m: Map, c: Cluster, a: Access, p: Two)
    requires MapOf(m, c) && Legal(m, a) && a.page <= p < MODE_M
    ensures Untouched(c, Store(m, c, a), p)
  {
    DecodeThenEncode(m, a.page, a.address);
    var d := Decode(m, a.page, a.address);
    if d.field != ClicConfig {
      FieldWriteIsolated(c.g, c.harts[d.hart], d, a.value, p);
    }
  }

  lemma UntouchedIsTransitive(a: Cluster, b: Cluster, c: Cluster, p: Two)
    requires Untouched(a, b, p) && Untouched(b, c, p)
    ensures Untouched(a, c, p)
  {
    forall k | 0 <= k < |a.harts| ensures HartUntouched(a.g, a.harts[k], c.harts[k], p) {
      assert HartUntouched(a.g, a.harts[k], b.harts[k], p) && HartUntouched(b.g, b.harts[k], c.harts[k], p);
      forall i | 0 <= i < |a.harts[k].ints|
        ensures ModeOf(a.g, b.harts[k], i) == ModeOf(b.g, b.harts[k], i)
        ensures ModeOf(a.g, c.harts[k], i) == ModeOf(b.g, c.harts[k], i)
      {
      }
    }
  }

  /** Isolation: no run of writes through pages of mode at most p (S or U) reaches above p. */
  lemma {:induction false} RunIsolated(m: Map, c: Cluster, run: seq<Access>, p: Two)
    requires MapOf(m, c) && p < MODE_M
    requires LegalRun(m, run, p)
    ensures Untouched(c, Stores(m, c, run), p)
    decreases |run|
  {
    if run == [] {
    } else {
      StoreIsolated(m, c, run[0], p);
      RunIsolated(m, Store(m, c, run[0]), run[1..], p);
      UntouchedIsTransitive(c, Store(m, c, run[0]), Stores(m, c, run), p);
    }
  }

  lemma UntouchedMode(c: Cluster, c': Cluster, p: Two, k: nat, i: nat)
    requires Untouched(c, c', p) && k < |c.harts| && i < |c.harts[k].ints|
    ensures i < |c'.harts[k].ints|
    ensures if ModeOf(c.g, c.harts[k], i) > p then ModeOf(c'.g, c'.harts[k], i) == ModeOf(c.g, c.harts[k], i)
            else ModeOf(c'.g, c'.harts[k], i) <= p
  {
    assert HartUntouched(c.g, c.harts[k], c'.harts[k], p);
  }

  /** What is presented above p is decided by what belongs above p. */
  lemma PresentedFromAbove(c: Cluster, c': Cluster, p: Two, k: nat)
    requires c.Valid() && c'.Valid() && Untouched(c, c', p) && k < |c.harts|
    requires Presented(c.g, c.harts[k]).priv > p
    ensures Presented(c'.g, c'.harts[k]) == Presented(c.g, c.harts[k])
  {
    var h, h' := c.harts[k], c'.harts[k];
    var b := Presented(c.g, h).id;
    assert HartUntouched(c.g, h, h', p);
    PresentedIsMaximum(c.g, h, b);
    UntouchedMode(c, c', p, k, b);
    forall i | 0 <= i < |h'.ipe| && h'.ipe[i] && i != b ensures Outranks(c'.g, h', b, i) {
      UntouchedMode(c, c', p, k, i);
      assert ModeOf(c.g, h, i) > p ==> Outranks(c.g, h, b, i);
    }
    PresentedIsMaximum(c'.g, h', b);
  }

  /**
   * A presented interrupt above p stays presented, with the same level and shv, whatever is written from p or below.
   */
  lemma PresentedIsolated(m: Map, c: Cluster, run: seq<Access>, p: Two, k: nat)
    requires MapOf(m, c) && p < MODE_M && k < |c.harts|
    requires LegalRun(m, run, p)
    requires Presented(c.g, c.harts[k]).priv > p
    ensures var c' := Stores(m, c, run);
            Presented(c'.g, c'.harts[k]) == Presented(c.g, c.harts[k])
  {
    RunIsolated(m, c, run, p);
    PresentedFromAbove(c, Stores(m, c, run), p, k);
  }
}
