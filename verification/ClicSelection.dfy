/** Which interrupt the CLIC presents. */
module ClicSelection {
  import opened Bits
  import opened Clic

  /** Presented interrupt; id is -1 when there is none. */
  datatype Sel = Sel(priv: Two, id: int, level: Byte, shv: bool)

  const NO_INT: Sel := Sel(MODE_U, -1, 0, false)

  function Rank(g: Global, h: Hart, i: nat): (r: nat)
    requires i < |h.ints|
  {
    256 * ModeOf(g, h, i) + h.ints[i].ctl
  }

  /** The choice the scan has made after looking at the first n interrupts. */
  function Best(g: Global, h: Hart, n: nat): (r: int)
    requires n <= |h.ints| && n <= |h.ipe|
    ensures -1 <= r < n
  {
    if n == 0 then -1 else
    var b := Best(g, h, n - 1);
    if h.ipe[n - 1] && (b < 0 || Rank(g, h, b) <= Rank(g, h, n - 1)) then n - 1 else b
  }

  /** The scan's variables after the first n interrupts: the choice, its rank and its mode. */
  ghost predicate Scanned(g: Global, h: Hart, n: nat, maxRank: nat, id: int, priv: Two) {
    n <= |h.ints| && n <= |h.ipe| && id == Best(g, h, n) &&
    if id < 0 then maxRank == 0 else maxRank == Rank(g, h, id) && priv == ModeOf(g, h, id)
  }

  /** One interrupt further. */
  lemma ScanStep(g: Global, h: Hart, i: nat, maxRank: nat, id: int, priv: Two)
    requires i < |h.ints| && i < |h.ipe| && Scanned(g, h, i, maxRank, id, priv)
    ensures if h.ipe[i] && maxRank <= Rank(g, h, i) then Scanned(g, h, i + 1, Rank(g, h, i), i, ModeOf(g, h, i))
            else Scanned(g, h, i + 1, maxRank, id, priv)
  {
  }

  /** Clear bits do not change the choice. */
  lemma {:induction false} BestSkips(g: Global, h: Hart, a: nat, b: nat)
    requires a <= b <= |h.ints| && b <= |h.ipe|
    requires forall j :: a <= j < b ==> !h.ipe[j]
    ensures Best(g, h, b) == Best(g, h, a)
    decreases b - a
  {
    if a < b { BestSkips(g, h, a, b - 1); }
  }

  /** Level of an interrupt: the nlbits most significant bits of clicintctl, the rest ones. */
  function Level(g: Global, priv: Two, ctl: Byte): (r: Byte)
    requires g.Valid()
  {
    FillLow(ctl, 8 - g.nlbits[priv])
  }

  function Presented(g: Global, h: Hart): (r: Sel)
    requires g.Valid() && h.Valid(g.cfg.intNum)
  {
    var b := Best(g, h, |h.ints|);
    if b < 0 then NO_INT
    else Sel(ModeOf(g, h, b), b, Level(g, ModeOf(g, h, b), h.ints[b].ctl), h.ints[b].attr.shv)
  }

  /** j outranks i: by mode, then by clicintctl, then by index. */
  predicate Outranks(g: Global, h: Hart, j: nat, i: nat)
    requires i < |h.ints| && j < |h.ints|
  {
    var mi, mj := ModeOf(g, h, i), ModeOf(g, h, j);
    mi < mj || (mi == mj && (h.ints[i].ctl < h.ints[j].ctl || (h.ints[i].ctl == h.ints[j].ctl && i < j)))
  }

  /** b is pending-and-enabled and outranks every other pending-and-enabled interrupt. */
  ghost predicate IsMaximum(g: Global, h: Hart, b: nat) {
    b < |h.ints| == |h.ipe| && h.ipe[b] &&
    forall i :: 0 <= i < |h.ipe| && h.ipe[i] && i != b ==> Outranks(g, h, b, i)
  }

  lemma {:induction false} BestIsMaximum(g: Global, h: Hart, n: nat)
    requires n <= |h.ints| && n <= |h.ipe|
    ensures Best(g, h, n) < 0 <==> forall i :: 0 <= i < n ==> !h.ipe[i]
    ensures var b := Best(g, h, n);
            b >= 0 ==> h.ipe[b] && forall i :: 0 <= i < n && h.ipe[i] && i != b ==> Outranks(g, h, b, i)
  {
    if n > 0 { BestIsMaximum(g, h, n - 1); }
  }

  /** The presented interrupt is the lexicographic maximum of (mode, clicintctl, index), and only that one is. */
  lemma PresentedIsMaximum(g: Global, h: Hart, b: nat)
    requires g.Valid() && h.Valid(g.cfg.intNum)
    ensures Presented(g, h).id == b <==> IsMaximum(g, h, b)
    ensures Presented(g, h).id < 0 <==> forall i :: 0 <= i < |h.ipe| ==> !h.ipe[i]
  {
    BestIsMaximum(g, h, |h.ints|);
  }

  lemma {:induction false} OrOnesMonotone(a: nat, b: nat, n: nat)
    requires a <= b
    ensures OrOnes(a, n) <= OrOnes(b, n)
  {
    if n > 0 { OrOnesMonotone(a / 2, b / 2, n - 1); }
  }

  /** Whatever nlbits is, no pending-and-enabled interrupt of the presented mode has a higher level. */
  lemma PresentedLevelIsHighest(g: Global, h: Hart, i: nat)
    requires g.Valid() && h.Valid(g.cfg.intNum) && i < |h.ints| && h.ipe[i]
    ensures var s := Presented(g, h);
            0 <= s.id < |h.ints| && ModeOf(g, h, i) <= s.priv &&
            (ModeOf(g, h, i) == s.priv ==> Level(g, s.priv, h.ints[i].ctl) <= s.level)
  {
    BestIsMaximum(g, h, |h.ints|);
    var b := Best(g, h, |h.ints|);
    if ModeOf(g, h, i) == ModeOf(g, h, b) {
      OrOnesMonotone(h.ints[i].ctl, h.ints[b].ctl, 8 - g.nlbits[ModeOf(g, h, b)]);
    }
  }

  // ----- levels bit by bit -----

  lemma {:induction false} OrOnesBit(b: nat, n: nat, k: nat)
    ensures Bit(OrOnes(b, n), k) == (k < n || Bit(b, k))
  {
    if n > 0 {
      assert OrOnes(b, n) / 2 == OrOnes(b / 2, n - 1);
      if k > 0 { OrOnesBit(b / 2, n - 1, k - 1); }
    }
  }

  /** The low n bits become ones, and the others stay. */
  lemma FillLowBit(b: Byte, n: nat, k: nat)
    requires n <= 8
    ensures Bit(FillLow(b, n), k) == (k < n || Bit(b, k))
  {
    OrOnesBit(b, n, k);
  }

  /**
   * What is presented with an interrupt: its mode, its shv, and a level whose nlbits most significant bits are
   * those of clicintctl, with ones below.
   */
  lemma PresentedDetails(g: Global, h: Hart, b: nat, k: nat)
    requires g.Valid() && h.Valid(g.cfg.intNum) && IsMaximum(g, h, b) && k < 8
    ensures var s := Presented(g, h);
            s.priv == ModeOf(g, h, b) && s.shv == h.ints[b].attr.shv &&
            Bit(s.level, k) == (k < 8 - g.nlbits[ModeOf(g, h, b)] || Bit(h.ints[b].ctl, k))
  {
    PresentedIsMaximum(g, h, b);
    FillLowBit(h.ints[b].ctl, 8 - g.nlbits[ModeOf(g, h, b)], k);
  }
}
